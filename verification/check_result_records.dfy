/** Result records: the text a GatorGrader check prints for one result, a
    `"key": value` fragment for each of the three fields, in any order,
    separated and surrounded by noise that holds no double quote. The
    parser recovers exactly the fields that were written, and since each
    pattern is matched against the whole text on its own, the order of the
    fragments does not matter. */
module ResultRecords {
  import opened Results
  import opened Texts
  import opened CheckResults

  datatype Key = CheckField | OutcomeField | DiagnosticField

  function Name(k: Key): string {
    match k
    case CheckField => CheckKey
    case OutcomeField => OutcomeKey
    case DiagnosticField => DiagnosticKey
  }

  function ShapeOf(k: Key): Shape {
    if k == OutcomeField then Flag else Quoted
  }

  /** The pattern the parser searches for the field `k`. */
  function PatternFor(k: Key): Matcher {
    PatternOf(Name(k), ShapeOf(k))
  }

  /** What a record says: the check name, the outcome literal exactly as
      printed, and the diagnostic. */
  datatype Entries = Entries(check: string, token: string, diagnostic: string)

  function Value(k: Key, e: Entries): string {
    match k
    case CheckField => e.check
    case OutcomeField => e.token
    case DiagnosticField => e.diagnostic
  }

  /** Strings are written between double quotes, the outcome bare. */
  function Written(k: Key, e: Entries): string {
    if ShapeOf(k) == Quoted then "\"" + Value(k, e) + "\"" else Value(k, e)
  }

  /** `"key":`, some white space, and the written value. */
  function Fragment(k: Key, gap: string, e: Entries): string {
    KeyPattern(Name(k)) + gap + Written(k, e)
  }

  /** Where the fragments go: their order, the text before the first, the
      white space after each colon, the separator between fragments and
      the text after the last. */
  datatype Layout = Layout(order: seq<Key>, lead: string, gap: string, sep: string, tail: string)

  function Body(l: Layout, e: Entries): string
    requires |l.order| == 3
  {
    Fragment(l.order[0], l.gap, e) + (l.sep + (Fragment(l.order[1], l.gap, e)
    + (l.sep + Fragment(l.order[2], l.gap, e))))
  }

  function Record(l: Layout, e: Entries): string
    requires |l.order| == 3
  {
    l.lead + Body(l, e) + l.tail
  }

  /** Text with neither a double quote nor a backslash. */
  predicate Plain(s: string) {
    '"' !in s && '\\' !in s
  }

  predicate Spaces(s: string) {
    forall i :: 0 <= i < |s| ==> IsRegexSpace(s[i])
  }

  /** Text that does not begin with the first letter of a key name. */
  predicate NoKeyInitial(s: string) {
    s == [] || (s[0] != 'c' && s[0] != 'o' && s[0] != 'd')
  }

  /** What may follow a fragment: nothing, or text that begins neither with
      a colon nor with the first letter of a key name (a comma, a closing
      brace, another fragment). */
  predicate Follower(s: string) {
    NoKeyInitial(s) && (s == [] || s[0] != ':')
  }

  predicate ValidEntries(e: Entries) {
    Plain(e.check) && Plain(e.diagnostic) && e.token in FlagTokens
  }

  predicate ValidLayout(l: Layout) {
    && |l.order| == 3
    && l.order[0] != l.order[1] && l.order[0] != l.order[2] && l.order[1] != l.order[2]
    && Plain(l.lead) && Spaces(l.gap) && Plain(l.sep) && Follower(l.sep)
    && Plain(l.tail) && Follower(l.tail)
  }

  // ---------------------------------------------------------------------
  // The key names and their patterns

  lemma NameFacts(k: Key)
    ensures |Name(k)| >= 1 && Plain(Name(k))
    ensures Name(k)[0] == 'c' || Name(k)[0] == 'o' || Name(k)[0] == 'd'
  {
    var n := Name(k);
    assert forall i :: 0 <= i < |n| ==> 'a' <= n[i] <= 'z';
  }

  lemma NamesDiffer(j: Key, k: Key)
    requires j != k
    ensures Name(j)[0] != Name(k)[0]
  {
  }

  lemma PatternShape(n: string)
    ensures |KeyPattern(n)| == |n| + 3
    ensures KeyPattern(n)[0] == '"' && KeyPattern(n)[|n| + 1] == '"' && KeyPattern(n)[|n| + 2] == ':'
    ensures forall i :: 0 <= i < |n| ==> KeyPattern(n)[i + 1] == n[i]
  {
  }

  /** No pattern starts at a double quote that is not followed by a key
      initial. */
  lemma DeadQuote(k: Key, y: string)
    requires NoKeyInitial(y)
    ensures PatternFor(k)(['"'] + y).None?
  {
    var s := ['"'] + y;
    var p := KeyPattern(Name(k));
    NameFacts(k);
    PatternShape(Name(k));
    if |s| >= |p| {
      assert s[..|p|][1] != p[1];
    }
  }

  /** No pattern starts at the opening quote of a string value: the value
      holds no quote, so the key's closing quote would have to be the
      value's, and that one is not followed by a colon. */
  lemma ClosedValue(k: Key, v: string, rest: string)
    requires '"' !in v && Follower(rest)
    ensures PatternFor(k)(['"'] + v + ['"'] + rest).None?
  {
    var s := ['"'] + v + ['"'] + rest;
    var n := Name(k);
    var p := KeyPattern(n);
    NameFacts(k);
    PatternShape(n);
    if |s| >= |p| {
      var t := s[..|p|];
      if |v| < |n| {
        assert t[1 + |v|] == '"' && p[1 + |v|] == n[|v|];
        assert n[|v|] in n;
      } else if |v| > |n| {
        assert t[1 + |n|] == v[|n|] && v[|n|] in v;
      } else {
        assert t[2 + |v|] == rest[0];
      }
      assert t != p;
    }
  }

  /** Another field's key never matches. */
  lemma OtherKey(j: Key, k: Key, rest: string)
    requires j != k
    ensures PatternFor(k)(KeyPattern(Name(j)) + rest).None?
  {
    var s := KeyPattern(Name(j)) + rest;
    var p := KeyPattern(Name(k));
    NamesDiffer(j, k);
    PatternShape(Name(j));
    PatternShape(Name(k));
    if |s| >= |p| {
      assert s[..|p|][1] == Name(j)[0];
    }
  }

  /** `\s*` stops right after a run of white space that ends before a
      non-space character. */
  lemma {:induction false} SkipGap(s: string, i: nat, n: nat)
    requires i + n < |s|
    requires forall k :: i <= k < i + n ==> IsRegexSpace(s[k])
    requires !IsRegexSpace(s[i + n])
    ensures SkipSpace(s, i) == i + n
    decreases n
  {
    if n > 0 {
      SkipGap(s, i + 1, n - 1);
    }
  }

  /** The first double quote after a quote-free value is the one closing
      it. */
  lemma FindClosing(v: string, rest: string)
    requires '"' !in v
    ensures Find(v + ['"'] + rest, '"') == Some(|v|)
  {
    var s := v + ['"'] + rest;
    assert s[|v|] == '"' && s[..|v|] == v;
    var i := Find(s, '"').value;
    assert i <= |v| by {
      assert s[..|v| + 1][|v|] == '"';
    }
  }

  lemma TokenFacts(token: string)
    requires token in FlagTokens
    ensures |token| >= 4 && Plain(token)
    ensures token[0] == 't' || token[0] == 'T' || token[0] == 'f' || token[0] == 'F'
    ensures token[|token| - 1] == 'e'
  {
    assert forall i :: 0 <= i < |token| ==> 'A' <= token[i] <= 'z';
  }

  /** The outcome pattern reads a flag literal back whatever follows it. */
  lemma TokenRead(token: string, rest: string)
    requires token in FlagTokens
    ensures FlagToken(token + rest) == Some(token)
  {
    var s := token + rest;
    assert s[..|token|] == token;
    if token != "true" && |s| >= 4 {
      assert s[..4][0] == token[0] && s[..4][1] == token[1];
    }
    if token != "True" && token != "true" && |s| >= 4 {
      assert s[..4][0] == token[0];
    }
    if token == "False" && |s| >= 5 {
      assert s[..5][0] == 'F';
    }
  }

  /** Past its key and the white space after it, a pattern captures what
      its value part reads there. */
  lemma KeyThenGap(key: string, gap: string, t: string, shape: Shape)
    requires Spaces(gap) && t != [] && !IsRegexSpace(t[0])
    ensures ValueAtStart(KeyPattern(key) + (gap + t), key, shape) == Capture(t, shape)
  {
    var p := KeyPattern(key);
    var s := p + (gap + t);
    var j := |p| + |gap|;
    assert StartsWith(s, p) by {
      assert s[..|p|] == p;
    }
    assert SkipSpace(s, |p|) == j by {
      assert forall i :: |p| <= i < j ==> s[i] == gap[i - |p|];
      assert s[j] == t[0];
      SkipGap(s, |p|, |gap|);
    }
    assert s[j..] == t;
  }

  /** A quoted value is read back up to its closing quote. */
  lemma QuotedCapture(v: string, rest: string)
    requires '"' !in v
    ensures Capture(['"'] + v + ['"'] + rest, Quoted) == Some(v)
  {
    var t := ['"'] + v + ['"'] + rest;
    assert t[1..] == v + ['"'] + rest;
    FindClosing(v, rest);
    assert t[1..1 + |v|] == v;
  }

  /** A field's own pattern, tried at its fragment, captures its value. */
  lemma OwnKey(k: Key, gap: string, e: Entries, rest: string)
    requires Spaces(gap) && ValidEntries(e)
    ensures PatternFor(k)(Fragment(k, gap, e) + rest) == Some(Value(k, e))
  {
    var n := Name(k);
    var w := Written(k, e);
    FragmentShape(k, gap, e, rest);
    Assoc3(gap, w, rest);
    if ShapeOf(k) == Quoted {
      var v := Value(k, e);
      assert w + rest == ['"'] + v + ['"'] + rest;
      QuotedCapture(v, rest);
      KeyThenGap(n, gap, w + rest, Quoted);
    } else {
      TokenFacts(e.token);
      TokenRead(e.token, rest);
      KeyThenGap(n, gap, w + rest, Flag);
    }
  }

  /** What the scan of a record needs to know about the pattern of field
      `k`: it starts only at a double quote, never at a quote that is not
      followed by a key initial, never at the opening quote of a string
      value, never at another field's key, and at its own fragment it
      captures the fragment's value. */
  ghost predicate Recognises(at: Matcher, k: Key) {
    && QuoteAnchored(at)
    && (forall y :: NoKeyInitial(y) ==> at(['"'] + y).None?)
    && (forall v, rest :: '"' !in v && Follower(rest) ==> at(['"'] + v + ['"'] + rest).None?)
    && (forall j, rest :: j != k ==> at(KeyPattern(Name(j)) + rest).None?)
    && (forall gap, e, rest :: Spaces(gap) && ValidEntries(e) ==>
          at(Fragment(k, gap, e) + rest) == Some(Value(k, e)))
  }

  /** The parser's own patterns have all of these properties. */
  lemma PatternRecognises(k: Key)
    ensures Recognises(PatternFor(k), k)
  {
    var at := PatternFor(k);
    PatternIsQuoteAnchored(Name(k), ShapeOf(k));
    forall y | NoKeyInitial(y) ensures at(['"'] + y).None? {
      DeadQuote(k, y);
    }
    forall v, rest | '"' !in v && Follower(rest) ensures at(['"'] + v + ['"'] + rest).None? {
      ClosedValue(k, v, rest);
    }
    forall j, rest | j != k ensures at(KeyPattern(Name(j)) + rest).None? {
      OtherKey(j, k, rest);
    }
    forall gap, e, rest | Spaces(gap) && ValidEntries(e)
      ensures at(Fragment(k, gap, e) + rest) == Some(Value(k, e))
    {
      OwnKey(k, gap, e, rest);
    }
  }

  // ---------------------------------------------------------------------
  // Scanning a record from the right, one piece at a time

  lemma SkipPlain(x: string, rest: string, at: Matcher)
    requires QuoteAnchored(at) && '"' !in x
    ensures ValueOf(LastMatch(x + rest, at)) == ValueOf(LastMatch(rest, at))
  {
    SkipQuoteFree(x, rest, at);
  }

  lemma Step(c: char, y: string, at: Matcher)
    ensures ValueOf(LastMatch([c] + y, at))
            == if ValueOf(LastMatch(y, at)).Some? then ValueOf(LastMatch(y, at)) else at([c] + y)
  {
    Unfold(c, y, at);
  }

  /** Inside a written value no pattern starts. */
  lemma WrittenScan(j: Key, k: Key, e: Entries, rest: string, at: Matcher)
    requires Recognises(at, k) && ValidEntries(e) && Follower(rest)
    ensures ValueOf(LastMatch(Written(j, e) + rest, at)) == ValueOf(LastMatch(rest, at))
  {
    if ShapeOf(j) == Quoted {
      var v := Value(j, e);
      Step('"', rest, at);
      assert at(['"'] + rest).None?;
      SkipPlain(v, ['"'] + rest, at);
      var u := v + (['"'] + rest);
      Step('"', u, at);
      assert ['"'] + u == ['"'] + v + ['"'] + rest;
      assert at(['"'] + v + ['"'] + rest).None?;
      assert Written(j, e) + rest == ['"'] + u;
    } else {
      TokenFacts(e.token);
      SkipPlain(e.token, rest, at);
    }
  }

  /** Past its opening quote, a fragment holds no match. */
  /** The name, the closing quote of the key, the colon and the white
      space in front of a written value hold no match. */
  lemma PastColon(j: Key, gap: string, w: string, at: Matcher)
    requires QuoteAnchored(at) && Spaces(gap)
    requires at(['"'] + ([':'] + (gap + w))).None?
    ensures ValueOf(LastMatch(Name(j) + (['"'] + ([':'] + (gap + w))), at))
            == ValueOf(LastMatch(w, at))
  {
    var z := [':'] + (gap + w);
    assert forall i :: 0 <= i < |gap| ==> gap[i] != '"';
    SkipPlain(gap, w, at);
    SkipPlain([':'], gap + w, at);
    Step('"', z, at);
    NameFacts(j);
    SkipPlain(Name(j), ['"'] + z, at);
  }

  lemma AfterOpeningQuote(j: Key, k: Key, gap: string, e: Entries, rest: string, at: Matcher)
    requires Recognises(at, k) && Spaces(gap) && ValidEntries(e) && Follower(rest)
    ensures ValueOf(LastMatch(Name(j) + (['"'] + ([':'] + (gap + (Written(j, e) + rest)))), at))
            == ValueOf(LastMatch(rest, at))
  {
    var w := Written(j, e) + rest;
    WrittenScan(j, k, e, rest, at);
    assert at(['"'] + ([':'] + (gap + w))).None?;
    PastColon(j, gap, w, at);
  }

  /** One fragment, scanned from the right: a match further right wins;
      otherwise the fragment supplies the value exactly when it is the
      searched field's own. */
  lemma FragmentScan(j: Key, k: Key, gap: string, e: Entries, rest: string, at: Matcher)
    requires Recognises(at, k) && Spaces(gap) && ValidEntries(e) && Follower(rest)
    ensures var after := ValueOf(LastMatch(rest, at));
            ValueOf(LastMatch(Fragment(j, gap, e) + rest, at))
            == if after.Some? then after else if j == k then Some(Value(k, e)) else None
  {
    var y := Name(j) + (['"'] + ([':'] + (gap + (Written(j, e) + rest))));
    AfterOpeningQuote(j, k, gap, e, rest, at);
    Step('"', y, at);
    FragmentShape(j, gap, e, rest);
    if j == k {
      assert at(Fragment(k, gap, e) + rest) == Some(Value(k, e));
    } else {
      assert at(KeyPattern(Name(j)) + (gap + Written(j, e) + rest)).None?;
    }
  }

  /** A fragment followed by more text, taken apart from the left. */
  lemma FragmentShape(k: Key, gap: string, e: Entries, rest: string)
    ensures Fragment(k, gap, e) + rest
            == ['"'] + (Name(k) + (['"'] + ([':'] + (gap + (Written(k, e) + rest)))))
    ensures KeyPattern(Name(k)) + (gap + Written(k, e) + rest) == Fragment(k, gap, e) + rest
  {
    var n := Name(k);
    var w := Written(k, e);
    assert KeyPattern(n) == ['"'] + n + ['"'] + [':'];
    Assoc(['"'], n, ['"'], [':'], gap + (w + rest));
  }

  lemma Assoc(a: string, b: string, c: string, d: string, x: string)
    ensures a + b + c + d + x == a + (b + (c + (d + x)))
  {
  }

  /** A separator followed by a fragment: the separator holds no match,
      and the text after it is a legal follower of the previous fragment. */
  lemma SepScan(sep: string, j: Key, k: Key, gap: string, e: Entries, rest: string, at: Matcher)
    requires Recognises(at, k) && Spaces(gap) && ValidEntries(e) && Follower(rest)
    requires Plain(sep) && Follower(sep)
    ensures var after := ValueOf(LastMatch(rest, at));
            ValueOf(LastMatch(sep + (Fragment(j, gap, e) + rest), at))
            == if after.Some? then after else if j == k then Some(Value(k, e)) else None
    ensures Follower(sep + (Fragment(j, gap, e) + rest))
  {
    FragmentScan(j, k, gap, e, rest, at);
    SkipPlain(sep, Fragment(j, gap, e) + rest, at);
    if sep == [] {
      assert (sep + (Fragment(j, gap, e) + rest))[0] == '"';
    }
  }

  /** The last fragment followed by the tail. */
  lemma LastFragment(l: Layout, e: Entries, t: string, k: Key, at: Matcher)
    requires Recognises(at, k) && ValidLayout(l) && ValidEntries(e)
    requires '"' !in t && Follower(t)
    ensures var x2 := Fragment(l.order[2], l.gap, e) + t;
            && ValueOf(LastMatch(l.sep + x2, at)) == (if l.order[2] == k then Some(Value(k, e)) else None)
            && Follower(l.sep + x2)
  {
    SkipPlain(t, [], at);
    assert t + [] == t;
    SepScan(l.sep, l.order[2], k, l.gap, e, t, at);
  }

  /** The last two fragments, their separators and the tail. */
  lemma LastTwoFragments(l: Layout, e: Entries, t: string, k: Key, at: Matcher)
    requires Recognises(at, k) && ValidLayout(l) && ValidEntries(e)
    requires '"' !in t && Follower(t)
    ensures var x1 := l.sep + (Fragment(l.order[1], l.gap, e) + (l.sep + (Fragment(l.order[2], l.gap, e) + t)));
            && ValueOf(LastMatch(x1, at))
               == (if l.order[2] == k || l.order[1] == k then Some(Value(k, e)) else None)
            && Follower(x1)
  {
    LastFragment(l, e, t, k, at);
    SepScan(l.sep, l.order[1], k, l.gap, e, l.sep + (Fragment(l.order[2], l.gap, e) + t), at);
  }

  /** In a record whose noise holds no quote, every field's pattern finds
      exactly the value written for it. */
  lemma BodyField(lead: string, l: Layout, e: Entries, t: string, k: Key, at: Matcher)
    requires Recognises(at, k) && ValidLayout(l) && ValidEntries(e)
    requires '"' !in lead && '"' !in t && Follower(t)
    ensures ValueOf(LastMatch(lead + Body(l, e) + t, at)) == Some(Value(k, e))
  {
    var x1 := l.sep + (Fragment(l.order[1], l.gap, e) + (l.sep + (Fragment(l.order[2], l.gap, e) + t)));
    var x0 := Fragment(l.order[0], l.gap, e) + x1;
    LastTwoFragments(l, e, t, k, at);
    FragmentScan(l.order[0], k, l.gap, e, x1, at);
    SkipPlain(lead, x0, at);
    BodyShape(lead, l, e, t);
  }

  lemma BodyShape(lead: string, l: Layout, e: Entries, t: string)
    requires |l.order| == 3
    ensures lead + Body(l, e) + t
            == lead + (Fragment(l.order[0], l.gap, e) + (l.sep + (Fragment(l.order[1], l.gap, e)
               + (l.sep + (Fragment(l.order[2], l.gap, e) + t)))))
  {
    var f0 := Fragment(l.order[0], l.gap, e);
    var f1 := Fragment(l.order[1], l.gap, e);
    var f2 := Fragment(l.order[2], l.gap, e);
    var z := l.sep + f2;
    var y := f1 + z;
    var x := l.sep + y;
    Assoc3(lead, f0 + x, t);
    Assoc3(f0, x, t);
    Assoc3(l.sep, y, t);
    Assoc3(f1, z, t);
    Assoc3(l.sep, f2, t);
  }

  lemma Assoc3(a: string, b: string, c: string)
    ensures a + b + c == a + (b + c)
  {
  }

  // ---------------------------------------------------------------------
  // Normalisation leaves a record's body alone

  /** A fragment begins with a double quote, ends with a visible
      character and holds no backslash. */
  lemma FragmentFacts(k: Key, gap: string, e: Entries)
    requires Spaces(gap) && ValidEntries(e)
    ensures var f := Fragment(k, gap, e);
            f != [] && f[0] == '"' && !IsTrimmable(f[|f| - 1]) && '\\' !in f
  {
    var n := Name(k);
    var w := Written(k, e);
    NameFacts(k);
    assert '\\' !in gap by {
      assert forall i :: 0 <= i < |gap| ==> gap[i] != '\\';
    }
    assert w != [] && !IsTrimmable(w[|w| - 1]) && '\\' !in w by {
      if ShapeOf(k) == Flag {
        TokenFacts(e.token);
      }
    }
    assert '\\' !in KeyPattern(n) by {
      assert KeyPattern(n) == ['"'] + n + ['"', ':'];
    }
    var f := KeyPattern(n) + gap + w;
    assert f[|f| - 1] == w[|w| - 1];
  }

  lemma BodyFacts(l: Layout, e: Entries)
    requires ValidLayout(l) && ValidEntries(e)
    ensures var b := Body(l, e);
            b != [] && !IsTrimmable(b[0]) && !IsTrimmable(b[|b| - 1]) && '\\' !in b
  {
    var f0 := Fragment(l.order[0], l.gap, e);
    var f1 := Fragment(l.order[1], l.gap, e);
    var f2 := Fragment(l.order[2], l.gap, e);
    assert f0 != [] && f0[0] == '"' && '\\' !in f0 by {
      FragmentFacts(l.order[0], l.gap, e);
    }
    assert '\\' !in f1 by {
      FragmentFacts(l.order[1], l.gap, e);
    }
    assert f2 != [] && !IsTrimmable(f2[|f2| - 1]) && '\\' !in f2 by {
      FragmentFacts(l.order[2], l.gap, e);
    }
    assert Body(l, e) == f0 + (l.sep + (f1 + (l.sep + f2)));
    JoinFacts(f0, f1, f2, l.sep);
  }

  /** Three pieces that each begin with a quote, end visibly and hold no
      backslash, joined by a backslash-free separator, do too. */
  lemma JoinFacts(f0: string, f1: string, f2: string, sep: string)
    requires f0 != [] && f0[0] == '"' && '\\' !in f0
    requires f2 != [] && !IsTrimmable(f2[|f2| - 1]) && '\\' !in f1 && '\\' !in f2
    requires '\\' !in sep
    ensures var b := f0 + (sep + (f1 + (sep + f2)));
            b != [] && !IsTrimmable(b[0]) && !IsTrimmable(b[|b| - 1]) && '\\' !in b
  {
    var x2 := sep + f2;
    var x1 := f1 + x2;
    var x0 := sep + x1;
    LastOfAppend(sep, f2);
    LastOfAppend(f1, x2);
    LastOfAppend(sep, x1);
    LastOfAppend(f0, x0);
  }

  lemma LastOfAppend(a: string, b: string)
    requires b != []
    ensures (a + b)[|a + b| - 1] == b[|b| - 1]
  {
  }

  /** The normalised record: the lead and tail lose their white space at
      the outer ends, the body is untouched. */
  lemma NormalizedRecord(l: Layout, e: Entries)
    requires ValidLayout(l) && ValidEntries(e)
    ensures Normalize(Record(l, e)) == TrimLeft(l.lead) + Body(l, e) + TrimRight(l.tail)
  {
    var r := Record(l, e);
    var b := Body(l, e);
    BodyFacts(l, e);
    assert '\\' !in r;
    NormalizeEscapeFree(r);
    TrimAround(l.lead, b, l.tail);
  }

  /** Trimming keeps the noise around the body free of quotes, and what
      follows the last fragment still a legal follower. */
  lemma TrimmedNoise(l: Layout)
    requires ValidLayout(l)
    ensures '"' !in TrimLeft(l.lead)
    ensures '"' !in TrimRight(l.tail) && Follower(TrimRight(l.tail))
  {
    var lead := TrimLeft(l.lead);
    var t := TrimRight(l.tail);
    assert forall i :: 0 <= i < |lead| ==> lead[i] == l.lead[|l.lead| - |lead| + i];
    assert forall i :: 0 <= i < |t| ==> t[i] == l.tail[i];
  }

  // ---------------------------------------------------------------------
  // The round trip

  /** Every field of a record is found with the value written for it. */
  lemma RecordField(l: Layout, e: Entries, k: Key)
    requires ValidLayout(l) && ValidEntries(e)
    ensures Field(Normalize(Record(l, e)), Name(k), ShapeOf(k)) == Some(Value(k, e))
  {
    NormalizedRecord(l, e);
    var lead := TrimLeft(l.lead);
    var t := TrimRight(l.tail);
    TrimmedNoise(l);
    PatternRecognises(k);
    BodyField(lead, l, e, t, k, PatternFor(k));
  }

  /** Parsing a record gives back the check name and the diagnostic as
      written, and an outcome that is true exactly for `true` or `True`. */
  lemma RecordParses(l: Layout, e: Entries)
    requires ValidLayout(l) && ValidEntries(e)
    ensures Parse(Some(Record(l, e)))
            == Success(CheckResult(e.check, e.token == "true" || e.token == "True", e.diagnostic))
  {
    RecordField(l, e, CheckField);
    RecordField(l, e, OutcomeField);
    RecordField(l, e, DiagnosticField);
    FlagMeaning(e.token);
  }

  /** The order of the fragments does not change the result. */
  lemma OrderIrrelevant(l: Layout, order: seq<Key>, e: Entries)
    requires ValidLayout(l) && ValidLayout(l.(order := order)) && ValidEntries(e)
    ensures Parse(Some(Record(l, e))) == Parse(Some(Record(l.(order := order), e)))
  {
    RecordParses(l, e);
    RecordParses(l.(order := order), e);
  }
}

/** The few `java.lang.String` operations the plugin relies on, over
    `string` (a sequence of Unicode scalar values): `trim`, `contains`,
    `indexOf`, `startsWith`, ASCII `toLowerCase`, splitting into lines and
    decimal rendering of a count. */
module Texts {
  import opened Results

  /** `String.trim` strips every leading and trailing character whose code
      is at most U+0020 (spaces and all ASCII control characters). */
  predicate IsTrimmable(c: char) {
    c <= ' '
  }

  /** `s.trim().isEmpty()` */
  predicate IsBlank(s: string) {
    forall i :: 0 <= i < |s| ==> IsTrimmable(s[i])
  }

  /** The first position at or after `i` holding a visible character, or
      the length when there is none. */
  function Lead(s: string, i: nat): (r: nat)
    requires i <= |s|
    ensures i <= r <= |s|
    ensures forall k :: i <= k < r ==> IsTrimmable(s[k])
    ensures r == |s| || !IsTrimmable(s[r])
    decreases |s| - i
  {
    if i == |s| || !IsTrimmable(s[i]) then i else Lead(s, i + 1)
  }

  /** The end of the last visible character at or before `j`, or zero
      when there is none. */
  function End(s: string, j: nat): (r: nat)
    requires j <= |s|
    ensures r <= j
    ensures forall k :: r <= k < j ==> IsTrimmable(s[k])
    ensures r == 0 || !IsTrimmable(s[r - 1])
  {
    if j == 0 || !IsTrimmable(s[j - 1]) then j else End(s, j - 1)
  }

  /** A position is the start of the visible part exactly when only
      trimmable characters come before it and a visible one (or the end)
      is at it. */
  lemma LeadUnique(s: string, n: nat)
    requires n <= |s|
    requires forall k :: 0 <= k < n ==> IsTrimmable(s[k])
    requires n == |s| || !IsTrimmable(s[n])
    ensures Lead(s, 0) == n
  {
  }

  lemma EndUnique(s: string, n: nat)
    requires n <= |s|
    requires forall k :: n <= k < |s| ==> IsTrimmable(s[k])
    requires n == 0 || !IsTrimmable(s[n - 1])
    ensures End(s, |s|) == n
  {
  }

  /** `s` with its trimmable prefix removed. */
  function TrimLeft(s: string): (r: string)
    ensures |r| <= |s| && r == s[|s| - |r|..]
    ensures r == [] || !IsTrimmable(r[0])
    ensures forall k :: 0 <= k < |s| - |r| ==> IsTrimmable(s[k])
  {
    s[Lead(s, 0)..]
  }

  /** `s` with its trimmable suffix removed. */
  function TrimRight(s: string): (r: string)
    ensures |r| <= |s| && r == s[..|r|]
    ensures r == [] || !IsTrimmable(r[|r| - 1])
    ensures forall k :: |r| <= k < |s| ==> IsTrimmable(s[k])
  {
    s[..End(s, |s|)]
  }

  /** `String.trim`: the longest infix of `s` that neither starts nor ends
      with a trimmable character; empty exactly when `s` is blank. */
  function Trim(s: string): (r: string)
    ensures |r| <= |s|
    ensures r == [] <==> IsBlank(s)
    ensures r != [] ==> !IsTrimmable(r[0]) && !IsTrimmable(r[|r| - 1])
  {
    var l := TrimLeft(s);
    var r := TrimRight(l);
    assert r != [] ==> r[0] == l[0];
    assert r == [] ==> l == [];
    r
  }

  /** Trimming text whose first and last characters are visible is the
      identity. */
  lemma TrimVisible(s: string)
    requires s == [] || (!IsTrimmable(s[0]) && !IsTrimmable(s[|s| - 1]))
    ensures Trim(s) == s
  {
  }

  lemma TrimLeftAppend(p: string, m: string)
    requires m != [] && !IsTrimmable(m[0])
    ensures TrimLeft(p + m) == TrimLeft(p) + m
  {
    var s := p + m;
    var n := Lead(p, 0);
    assert forall k :: 0 <= k < n ==> s[k] == p[k];
    assert n < |p| ==> s[n] == p[n];
    assert n == |p| ==> s[n] == m[0];
    LeadUnique(s, n);
    assert s[n..] == p[n..] + m;
  }

  lemma TrimRightPrepend(m: string, s: string)
    requires m != [] && !IsTrimmable(m[|m| - 1])
    ensures TrimRight(m + s) == m + TrimRight(s)
  {
    var x := m + s;
    var e := End(s, |s|);
    var n := |m| + e;
    assert forall k :: n <= k < |x| ==> x[k] == s[k - |m|];
    assert e > 0 ==> x[n - 1] == s[e - 1];
    assert e == 0 ==> x[n - 1] == m[|m| - 1];
    EndUnique(x, n);
    assert x[..n] == m + s[..e];
  }

  /** Trimming noisy text around a visible core only eats into the noise:
      the core survives intact. */
  lemma {:induction false} TrimAround(p: string, m: string, s: string)
    requires m != [] && !IsTrimmable(m[0]) && !IsTrimmable(m[|m| - 1])
    ensures Trim(p + m + s) == TrimLeft(p) + m + TrimRight(s)
  {
    var l := TrimLeft(p);
    var x := p + m + s;
    assert TrimLeft(x) == l + (m + s) by {
      assert x == p + (m + s);
      TrimLeftAppend(p, m + s);
    }
    assert TrimRight(l + m + s) == l + m + TrimRight(s) by {
      TrimRightPrepend(l + m, s);
    }
    assert l + (m + s) == l + m + s;
  }

  predicate StartsWith(s: string, prefix: string) {
    |prefix| <= |s| && s[..|prefix|] == prefix
  }

  /** `p` occurs in `s` starting at index `i`. */
  predicate OccursAt(s: string, p: string, i: nat) {
    i + |p| <= |s| && s[i..i + |p|] == p
  }

  /** `String.contains` */
  predicate Contains(s: string, p: string) {
    exists i: nat | i <= |s| :: OccursAt(s, p, i)
  }

  /** First index at or after `from` where `p` occurs. */
  function IndexFrom(s: string, p: string, from: nat): (r: Option<nat>)
    requires from <= |s|
    ensures r.Some? ==> from <= r.value && OccursAt(s, p, r.value)
    ensures r.Some? ==> forall j: nat :: from <= j < r.value ==> !OccursAt(s, p, j)
    ensures r.None? ==> forall j: nat :: from <= j <= |s| ==> !OccursAt(s, p, j)
    decreases |s| - from
  {
    if OccursAt(s, p, from) then Some(from)
    else if from == |s| then None
    else IndexFrom(s, p, from + 1)
  }

  /** `String.indexOf(String)`: the first occurrence, if any. */
  function IndexOf(s: string, p: string): (r: Option<nat>)
    ensures r.Some? <==> Contains(s, p)
    ensures r.Some? ==> OccursAt(s, p, r.value)
    ensures r.Some? ==> forall j: nat :: j < r.value ==> !OccursAt(s, p, j)
  {
    IndexFrom(s, p, 0)
  }

  /** First index of the character `c`, if any. */
  function Find(s: string, c: char): (r: Option<nat>)
    ensures r.Some? ==> r.value < |s| && s[r.value] == c
    ensures r.Some? ==> c !in s[..r.value]
    ensures r.None? <==> c !in s
  {
    if s == [] then None
    else if s[0] == c then Some(0)
    else
      match Find(s[1..], c)
      case None => None
      case Some(i) =>
        assert s[..i + 1] == [s[0]] + s[1..][..i];
        Some(i + 1)
  }

  /** `Character.toLowerCase` restricted to ASCII letters. */
  function LowerChar(c: char): char {
    if 'A' <= c <= 'Z' then (c as int - 'A' as int + 'a' as int) as char else c
  }

  /** `String.toLowerCase(Locale.ENGLISH)` on the ASCII range. */
  function Lower(s: string): (r: string)
    ensures |r| == |s|
    ensures forall i :: 0 <= i < |s| ==> r[i] == LowerChar(s[i])
  {
    seq(|s|, i requires 0 <= i < |s| => LowerChar(s[i]))
  }

  /** The lines of `s`: the pieces between line feeds, in order. */
  function Lines(s: string): (r: seq<string>)
    ensures |r| >= 1
    ensures forall i :: 0 <= i < |r| ==> '\n' !in r[i]
    decreases |s|
  {
    match Find(s, '\n')
    case None => [s]
    case Some(i) => [s[..i]] + Lines(s[i + 1..])
  }

  /** Lines glued back together with line feeds. */
  function Join(ls: seq<string>): string
    requires |ls| >= 1
  {
    if |ls| == 1 then ls[0] else ls[0] + "\n" + Join(ls[1..])
  }

  /** Splitting into lines loses nothing: joining them gives back the text. */
  lemma {:induction false} JoinLines(s: string)
    ensures Join(Lines(s)) == s
    decreases |s|
  {
    match Find(s, '\n')
    case None =>
    case Some(i) =>
      var rest := Lines(s[i + 1..]);
      assert Lines(s) == [s[..i]] + rest;
      assert (Lines(s))[1..] == rest;
      JoinLines(s[i + 1..]);
      assert s == s[..i] + "\n" + s[i + 1..];
  }

  /** The first line feed of a text is the one after its first line. */
  lemma FindAfter(a: string, rest: string)
    requires '\n' !in a
    ensures Find(a + "\n" + rest, '\n') == Some(|a|)
    ensures (a + "\n" + rest)[..|a|] == a
    ensures (a + "\n" + rest)[|a| + 1..] == rest
  {
    var s := a + "\n" + rest;
    assert s[|a|] == '\n' && s[..|a|] == a;
    var v := Find(s, '\n').value;
    assert v <= |a| by { assert s[..|a| + 1][|a|] == '\n'; }
    assert forall i :: 0 <= i < |a| ==> s[i] != '\n' by {
      forall i | 0 <= i < |a|
        ensures s[i] != '\n'
      {
        assert s[i] == a[i] && a[i] in a;
      }
    }
  }

  /** Lines without line feeds are recovered exactly from their join. */
  lemma {:induction false} LinesJoin(ls: seq<string>)
    requires |ls| >= 1
    requires forall i :: 0 <= i < |ls| ==> '\n' !in ls[i]
    ensures Lines(Join(ls)) == ls
    decreases |ls|
  {
    if |ls| > 1 {
      var rest := Join(ls[1..]);
      var s := Join(ls);
      assert s == ls[0] + "\n" + rest;
      FindAfter(ls[0], rest);
      assert Lines(s) == [ls[0]] + Lines(rest);
      LinesJoin(ls[1..]);
      assert ls == [ls[0]] + ls[1..];
    }
  }

  /** Trimming never introduces a character. */
  lemma TrimKeepsOut(c: char, s: string)
    requires c !in s
    ensures c !in Trim(s)
  {
    var l := TrimLeft(s);
    var r := Trim(s);
    assert forall i :: 0 <= i < |l| ==> l[i] == s[|s| - |l| + i];
    assert forall i :: 0 <= i < |r| ==> r[i] == l[i];
  }

  /** Text is blank exactly when every one of its lines is. */
  lemma {:induction false} BlankJoin(ls: seq<string>)
    requires |ls| >= 1
    ensures IsBlank(Join(ls)) <==> forall i :: 0 <= i < |ls| ==> IsBlank(ls[i])
    decreases |ls|
  {
    if |ls| > 1 {
      BlankJoin(ls[1..]);
      var rest := Join(ls[1..]);
      var s := ls[0] + "\n" + rest;
      assert Join(ls) == s;
      assert forall i :: 0 <= i < |ls[0]| ==> s[i] == ls[0][i];
      assert forall i :: 0 <= i < |rest| ==> s[|ls[0]| + 1 + i] == rest[i];
      assert forall i :: 1 <= i < |ls| ==> ls[i] == ls[1..][i - 1];
      if !IsBlank(s) {
        var k :| 0 <= k < |s| && !IsTrimmable(s[k]);
        if k < |ls[0]| {
          assert !IsBlank(ls[0]);
        } else {
          assert !IsBlank(rest) by {
            assert rest[k - |ls[0]| - 1] == s[k];
          }
        }
      }
    }
  }

  /** The last character of joined lines is that of the last line, when
      that line is not empty. */
  lemma {:induction false} JoinLast(ls: seq<string>)
    requires |ls| >= 1 && ls[|ls| - 1] != []
    ensures var j := Join(ls); j != [] && j[|j| - 1] == ls[|ls| - 1][|ls[|ls| - 1]| - 1]
    decreases |ls|
  {
    if |ls| > 1 {
      JoinLast(ls[1..]);
      assert ls[1..][|ls| - 2] == ls[|ls| - 1];
    }
  }

  predicate IsDigit(c: char) {
    '0' <= c <= '9'
  }

  predicate IsDecimal(s: string) {
    forall i :: 0 <= i < |s| ==> IsDigit(s[i])
  }

  function DigitChar(d: nat): (c: char)
    requires d < 10
    ensures IsDigit(c) && c as int - '0' as int == d
  {
    ('0' as int + d) as char
  }

  /** `Integer.toString` for a count: decimal digits, no leading zero. */
  function NatToString(n: nat): (r: string)
    ensures |r| >= 1
    ensures IsDecimal(r)
    ensures |r| > 1 ==> r[0] != '0'
  {
    if n < 10 then [DigitChar(n)] else NatToString(n / 10) + [DigitChar(n % 10)]
  }

  /** The number a string of decimal digits denotes. */
  function DecimalValue(s: string): nat
    requires IsDecimal(s)
  {
    if s == [] then 0 else 10 * DecimalValue(s[..|s| - 1]) + (s[|s| - 1] as int - '0' as int)
  }

  /** A count written out reads back as the same count. */
  lemma {:induction false} DecimalRoundTrip(n: nat)
    ensures DecimalValue(NatToString(n)) == n
  {
    var s := NatToString(n);
    if n >= 10 {
      DecimalRoundTrip(n / 10);
      assert s[..|s| - 1] == NatToString(n / 10);
    }
  }

  /** The end of the run of digits that starts at `i`. */
  function DigitsEnd(s: string, i: nat): (j: nat)
    requires i <= |s|
    ensures i <= j <= |s|
    ensures IsDecimal(s[i..j])
    ensures j == |s| || !IsDigit(s[j])
    decreases |s| - i
  {
    if i == |s| || !IsDigit(s[i]) then i
    else
      var j := DigitsEnd(s, i + 1);
      assert s[i..j] == [s[i]] + s[i + 1..j];
      j
  }

  /** The count a text starts with, and the text after its digits. */
  function ReadCount(s: string): Option<(nat, string)> {
    var e := DigitsEnd(s, 0);
    if e == 0 then None else Some((DecimalValue(s[..e]), s[e..]))
  }

  /** A count written out and followed by text that does not start with a
      digit is read back, and reading stops where that text starts. */
  lemma CountRoundTrip(n: nat, rest: string)
    requires rest == [] || !IsDigit(rest[0])
    ensures ReadCount(NatToString(n) + rest) == Some((n, rest))
  {
    var d := NatToString(n);
    var s := d + rest;
    assert s[0..|d|] == s[..|d|] == d;
    assert s[|d|..] == rest;
    assert |d| == |s| || s[|d|] == rest[0];
    DigitsRun(s, 0, |d|);
    DecimalRoundTrip(n);
  }

  lemma {:induction false} DigitsRun(s: string, i: nat, j: nat)
    requires i <= j <= |s| && IsDecimal(s[i..j]) && (j == |s| || !IsDigit(s[j]))
    ensures DigitsEnd(s, i) == j
    decreases j - i
  {
    if i < j {
      assert s[i..j][0] == s[i];
      assert s[i + 1..j] == s[i..j][1..];
      DigitsRun(s, i + 1, j);
    }
  }
}

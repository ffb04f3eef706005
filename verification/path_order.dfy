/** The order `Comparator.reverseOrder()` puts paths in: a path's
    `compareTo` on a Unix-like file system compares the bytes of the two
    paths lexicographically, and on Unicode text that is the order of the
    code points. Sorting in reverse therefore lists every path before any
    path that is a proper prefix of it, so a directory's contents come
    before the directory itself. */
module PathOrder {
  import opened Texts

  /** `a` sorts at or before `b`: it is a prefix of `b`, or it has the
      smaller character at the first place they differ. */
  predicate LexLe(a: string, b: string)
    decreases |a|
  {
    a == [] || (b != [] && (a[0] < b[0] || (a[0] == b[0] && LexLe(a[1..], b[1..]))))
  }

  lemma {:induction false} LexTotal(a: string, b: string)
    ensures LexLe(a, b) || LexLe(b, a)
    decreases |a|
  {
    if a != [] && b != [] && a[0] == b[0] {
      LexTotal(a[1..], b[1..]);
    }
  }

  lemma {:induction false} LexTransitive(a: string, b: string, c: string)
    requires LexLe(a, b) && LexLe(b, c)
    ensures LexLe(a, c)
    decreases |a|
  {
    if a != [] && a[0] == b[0] && b[0] == c[0] {
      LexTransitive(a[1..], b[1..], c[1..]);
    }
  }

  lemma {:induction false} LexAntisymmetric(a: string, b: string)
    requires LexLe(a, b) && LexLe(b, a)
    ensures a == b
    decreases |a|
  {
    if a != [] {
      LexAntisymmetric(a[1..], b[1..]);
      assert a == [a[0]] + a[1..] && b == [b[0]] + b[1..];
    }
  }

  /** A prefix sorts at or before every extension of it. */
  lemma {:induction false} PrefixFirst(a: string, b: string)
    requires StartsWith(b, a)
    ensures LexLe(a, b)
    decreases |a|
  {
    if a != [] {
      assert b[0] == a[0];
      assert StartsWith(b[1..], a[1..]) by {
        assert b[1..][..|a| - 1] == b[..|a|][1..];
      }
      PrefixFirst(a[1..], b[1..]);
    }
  }

  /** Every later element sorts at or before every earlier one. */
  predicate Descending(s: seq<string>) {
    forall i, j :: 0 <= i < j < |s| ==> LexLe(s[j], s[i])
  }

  /** `x` placed into a descending sequence, in front of the first element
      that sorts at or before it. */
  function Insert(x: string, s: seq<string>): (r: seq<string>)
    requires Descending(s)
    ensures Descending(r)
    ensures multiset(r) == multiset(s) + multiset{x}
    decreases |s|
  {
    if s == [] then [x]
    else if LexLe(s[0], x) then
      InsertFront(x, s);
      [x] + s
    else
      var t := Insert(x, s[1..]);
      LexTotal(s[0], x);
      InsertBehind(s[0], x, s[1..], t);
      assert s == [s[0]] + s[1..];
      [s[0]] + t
  }

  /** `x` may go in front when it sorts at or after the head. */
  lemma InsertFront(x: string, s: seq<string>)
    requires s != [] && Descending(s) && LexLe(s[0], x)
    ensures Descending([x] + s)
  {
    forall j | 0 < j < |s| + 1
      ensures LexLe(([x] + s)[j], x)
    {
      if j > 1 {
        LexTransitive(s[j - 1], s[0], x);
      }
    }
  }

  /** The head stays in front of a descending sequence made from what
      followed it and one element sorting before it. */
  lemma InsertBehind(h: string, x: string, rest: seq<string>, t: seq<string>)
    requires Descending([h] + rest) && LexLe(x, h)
    requires Descending(t) && multiset(t) == multiset(rest) + multiset{x}
    ensures Descending([h] + t)
  {
    forall j | 0 <= j < |t|
      ensures LexLe(t[j], h)
    {
      assert t[j] in multiset(t);
      if t[j] != x {
        assert t[j] in rest;
        var k :| 0 <= k < |rest| && rest[k] == t[j];
        assert ([h] + rest)[k + 1] == t[j] && ([h] + rest)[0] == h;
      }
    }
    forall i, j | 0 <= i < j < |t| + 1
      ensures LexLe(([h] + t)[j], ([h] + t)[i])
    {
      if i > 0 {
        assert ([h] + t)[j] == t[j - 1] && ([h] + t)[i] == t[i - 1];
      }
    }
  }

  /** `sorted(Comparator.reverseOrder())`: the paths in descending order. */
  function SortDescending(s: seq<string>): (r: seq<string>)
    ensures Descending(r)
    ensures multiset(r) == multiset(s)
  {
    if s == [] then []
    else
      assert s == [s[0]] + s[1..];
      Insert(s[0], SortDescending(s[1..]))
  }

  /** In a descending sequence every path comes before each of its proper
      prefixes, so a file or directory below `p` (a path that starts with
      `p` followed by the separator) is listed before `p`. */
  lemma DescendantsFirst(s: seq<string>, sep: string, i: nat, j: nat)
    requires Descending(s) && sep != []
    requires i < |s| && j < |s| && StartsWith(s[i], s[j] + sep)
    ensures i < j
  {
    var p := s[j];
    var q := s[i];
    assert StartsWith(q, p) by {
      assert q[..|p|] == (q[..|p + sep|])[..|p|];
    }
    PrefixFirst(p, q);
    assert p != q by {
      assert |q| >= |p| + |sep|;
    }
    if j < i {
      LexAntisymmetric(p, q);
      assert false;
    }
  }
}

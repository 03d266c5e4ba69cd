/** The byte order that std::string, std::set, std::map and Go's sort.Strings share, and
    the ordered traversals built on it. A char stands for one byte. */
module Lex {

  /** Strict lexicographic order. */
  predicate Less(a: string, b: string)
    decreases |a|
  {
    b != [] && (a == [] || a[0] < b[0] || (a[0] == b[0] && Less(a[1..], b[1..])))
  }

  /** The first difference decides; a proper prefix comes first. */
  ghost predicate DiffersBelow(a: string, b: string, k: nat) {
    k <= |a| && k < |b| && a[..k] == b[..k] && (k == |a| || a[k] < b[k])
  }

  lemma SameFirst(a: string, b: string, k: nat)
    requires 0 < k <= |a| && k <= |b| && a[..k] == b[..k]
    ensures a[0] == b[0]
  {
    assert a[..k][0] == b[..k][0];
  }

  lemma {:induction false} LessExact(a: string, b: string)
    ensures Less(a, b) <==> exists k: nat :: DiffersBelow(a, b, k)
    decreases |a|
  {
    if a == [] || b == [] || a[0] != b[0] {
      if Less(a, b) { assert DiffersBelow(a, b, 0); }
      forall k: nat | DiffersBelow(a, b, k)
        ensures Less(a, b)
      {
        if k > 0 { SameFirst(a, b, k); }
      }
    } else {
      LessExact(a[1..], b[1..]);
      if k: nat :| DiffersBelow(a[1..], b[1..], k) {
        assert a[..k + 1] == [a[0]] + a[1..][..k] && b[..k + 1] == [b[0]] + b[1..][..k];
        assert DiffersBelow(a, b, k + 1);
      }
      if k: nat :| DiffersBelow(a, b, k) {
        assert k > 0;
        assert a[1..][..k - 1] == a[..k][1..] && b[1..][..k - 1] == b[..k][1..];
        assert DiffersBelow(a[1..], b[1..], k - 1);
      }
    }
  }

  predicate LessEq(a: string, b: string) {
    a == b || Less(a, b)
  }

  predicate HasPrefix(s: string, p: string) {
    |p| <= |s| && s[..|p|] == p
  }

  lemma {:induction false} LessIrreflexive(a: string)
    ensures !Less(a, a)
  {
    if a != [] { LessIrreflexive(a[1..]); }
  }

  lemma {:induction false} LessTransitive(a: string, b: string, c: string)
    requires Less(a, b) && Less(b, c)
    ensures Less(a, c)
    decreases |a|
  {
    if a != [] && a[0] == b[0] == c[0] {
      LessTransitive(a[1..], b[1..], c[1..]);
    }
  }

  lemma {:induction false} LessTotal(a: string, b: string)
    ensures Less(a, b) || a == b || Less(b, a)
    decreases |a|
  {
    if a != [] && b != [] && a[0] == b[0] {
      LessTotal(a[1..], b[1..]);
      assert a == [a[0]] + a[1..] && b == [b[0]] + b[1..];
    }
  }

  lemma LessAsymmetric(a: string, b: string)
    requires Less(a, b)
    ensures !Less(b, a)
  {
    if Less(b, a) {
      LessTransitive(a, b, a);
      LessIrreflexive(a);
    }
  }

  /** Erasing or adding a common prefix keeps the order. */
  lemma {:induction false} LessUnderPrefix(p: string, a: string, b: string)
    ensures Less(p + a, p + b) <==> Less(a, b)
  {
    if p == [] {
      assert p + a == a && p + b == b;
    } else {
      assert (p + a)[1..] == p[1..] + a && (p + b)[1..] == p[1..] + b;
      LessUnderPrefix(p[1..], a, b);
    }
  }

  /** Strings that start with p lie together, beginning at p itself. */
  lemma {:induction false} PrefixIsContiguous(p: string, x: string, y: string)
    requires LessEq(p, x) && Less(x, y) && HasPrefix(y, p)
    ensures HasPrefix(x, p)
    decreases |p|
  {
    if p != [] && p != x {
      assert y[0] == p[0];
      assert x[0] == p[0];
      var p', x', y' := p[1..], x[1..], y[1..];
      assert y'[..|p'|] == y[..|p|][1..];
      PrefixIsContiguous(p', x', y');
      assert x[..|p|] == [x[0]] + x'[..|p'|];
      assert p == [p[0]] + p';
    }
  }

  lemma {:induction false} PrefixIsLower(p: string, x: string)
    requires HasPrefix(x, p)
    ensures LessEq(p, x)
  {
    if p != [] {
      assert x[1..][..|p[1..]|] == x[..|p|][1..];
      PrefixIsLower(p[1..], x[1..]);
      assert p == [p[0]] + p[1..] && x == [x[0]] + x[1..];
    }
  }

  // ----- ordered traversal -----

  predicate Ascending(s: seq<string>) {
    forall i, j | 0 <= i < j < |s| :: Less(s[i], s[j])
  }

  predicate Sorted(s: seq<string>) {
    forall i, j | 0 <= i < j < |s| :: LessEq(s[i], s[j])
  }

  predicate Distinct<T(==)>(s: seq<T>) {
    forall i, j | 0 <= i < j < |s| :: s[i] != s[j]
  }

  function Elements<T>(s: seq<T>): set<T> {
    set x | x in s
  }

  lemma {:induction false} LeastExists(s: set<string>) returns (m: string)
    requires s != {}
    ensures m in s && forall y | y in s :: LessEq(m, y)
    decreases |s|
  {
    m :| m in s;
    if s != {m} {
      var rest := s - {m};
      assert rest != {} by {
        var z :| z in s && z != m;
        assert z in rest;
      }
      var n := LeastExists(rest);
      LessTotal(m, n);
      forall y | y in s
        ensures LessEq(if Less(n, m) then n else m, y)
      {
        if y != m {
          assert y in rest;
          if !Less(n, m) && n != y && m != n { LessTransitive(m, n, y); }
        }
      }
      if Less(n, m) { m := n; }
    }
  }

  function Least(s: set<string>): (m: string)
    requires s != {}
    ensures m in s && forall y | y in s :: LessEq(m, y)
  {
    var w := LeastWitness(s);
    assert forall a, b | a in s && b in s && (forall y | y in s :: LessEq(a, y)) &&
      (forall y | y in s :: LessEq(b, y)) :: a == b by {
      forall a, b | a in s && b in s && (forall y | y in s :: LessEq(a, y)) && (forall y | y in s :: LessEq(b, y))
        ensures a == b
      {
        if a != b { LessAsymmetric(a, b); }
      }
    }
    var m :| m in s && forall y | y in s :: LessEq(m, y);
    m
  }

  ghost function LeastWitness(s: set<string>): (m: string)
    requires s != {}
    ensures m in s && forall y | y in s :: LessEq(m, y)
  {
    assert exists m :: m in s && forall y | y in s :: LessEq(m, y) by {
      var m := LeastExists(s);
    }
    var m :| m in s && forall y | y in s :: LessEq(m, y);
    m
  }

  /** How std::set and the keys of std::map are visited. */
  function Ordered(s: set<string>): (r: seq<string>)
    ensures Ascending(r)
    ensures Elements(r) == s
    ensures |r| == |s|
    decreases |s|
  {
    if s == {} then [] else
      var m := Least(s);
      var rest := Ordered(s - {m});
      ConsAscending(m, rest, s);
      [m] + rest
  }

  lemma ConsAscending(m: string, rest: seq<string>, s: set<string>)
    requires m in s && Ascending(rest) && Elements(rest) == s - {m}
    requires forall y | y in s :: LessEq(m, y)
    ensures Ascending([m] + rest) && Elements([m] + rest) == s
  {
    var r := [m] + rest;
    forall i, j | 0 <= i < j < |r|
      ensures Less(r[i], r[j])
    {
      assert r[j] == rest[j - 1] && rest[j - 1] in Elements(rest);
    }
    forall x | x in s
      ensures x in r
    {
      if x != m {
        assert x in Elements(rest);
        var i :| 0 <= i < |rest| && rest[i] == x;
        assert r[i + 1] == x;
      }
    }
    assert forall x | x in r :: x == m || x in Elements(rest);
  }

  lemma AscendingIsDistinct(s: seq<string>)
    requires Ascending(s)
    ensures Distinct(s)
  {
    forall i, j | 0 <= i < j < |s|
      ensures s[i] != s[j]
    {
      LessIrreflexive(s[i]);
    }
  }

  /** A traversal in ascending order is determined by the set it visits. */
  lemma {:induction false} AscendingUnique(a: seq<string>, b: seq<string>)
    requires Ascending(a) && Ascending(b) && Elements(a) == Elements(b)
    ensures a == b
    decreases |a|
  {
    EmptyElements(b);
    if a != [] {
      assert a[0] in Elements(b) && b != [] && b[0] in Elements(a);
      assert a[0] == b[0] by {
        if a[0] != b[0] {
          var i :| 0 <= i < |a| && a[i] == b[0];
          var j :| 0 <= j < |b| && b[j] == a[0];
          LessAsymmetric(a[0], b[0]);
        }
      }
      AscendingIsDistinct(a);
      AscendingIsDistinct(b);
      TailElements(a);
      TailElements(b);
      AscendingUnique(a[1..], b[1..]);
      assert a == [a[0]] + a[1..] && b == [b[0]] + b[1..];
    }
  }

  lemma EmptyElements(s: seq<string>)
    ensures Elements(s) == {} ==> s == []
  {
    if s != [] { assert s[0] in Elements(s); }
  }

  lemma TailElements(s: seq<string>)
    requires s != [] && Distinct(s)
    ensures Elements(s[1..]) == Elements(s) - {s[0]}
  {
    forall x | x in Elements(s) - {s[0]}
      ensures x in s[1..]
    {
      var i :| 0 <= i < |s| && s[i] == x;
      assert s[1..][i - 1] == x;
    }
  }

  function Concat(s: seq<string>): string {
    if s == [] then "" else s[0] + Concat(s[1..])
  }

  lemma {:induction false} ConcatAppend(a: seq<string>, b: seq<string>)
    ensures Concat(a + b) == Concat(a) + Concat(b)
  {
    if a == [] {
      assert a + b == b;
    } else {
      assert (a + b)[1..] == a[1..] + b;
      ConcatAppend(a[1..], b);
    }
  }
}

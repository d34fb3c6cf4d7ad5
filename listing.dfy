/** os.ReadDir lists a directory's entries sorted by file name. The order
    matters to the plugin scan, whose panic depends on which of two names
    sharing a prefix comes first. */
module Listing {

  /** Go's `<` on strings: byte-wise on UTF-8, which orders like the code
      points compared one by one, a proper prefix first. */
  predicate Less(a: string, b: string)
    decreases |a|
  {
    if a == [] then b != []
    else if b == [] then false
    else if a[0] != b[0] then a[0] < b[0]
    else Less(a[1..], b[1..])
  }

  lemma {:induction false} LessIrreflexive(a: string)
    ensures !Less(a, a)
    decreases |a|
  {
    if a != [] {
      LessIrreflexive(a[1..]);
    }
  }

  lemma {:induction false} LessTransitive(a: string, b: string, c: string)
    requires Less(a, b) && Less(b, c)
    ensures Less(a, c)
    decreases |a|
  {
    if a != [] && b != [] && c != [] && a[0] == b[0] == c[0] {
      LessTransitive(a[1..], b[1..], c[1..]);
    }
  }

  lemma {:induction false} LessTotal(a: string, b: string)
    requires a != b
    ensures Less(a, b) || Less(b, a)
    decreases |a|
  {
    if a != [] && b != [] && a[0] == b[0] {
      assert a == [a[0]] + a[1..] && b == [b[0]] + b[1..];
      LessTotal(a[1..], b[1..]);
    }
  }

  lemma {:induction false} LessAsymmetric(a: string, b: string)
    requires Less(a, b)
    ensures !Less(b, a)
    decreases |a|
  {
    if a != [] && b != [] && a[0] == b[0] {
      LessAsymmetric(a[1..], b[1..]);
    }
  }

  /** A proper prefix sorts before the longer name. */
  lemma {:induction false} PrefixLess(a: string, b: string)
    requires |a| < |b| && a == b[..|a|]
    ensures Less(a, b)
    decreases |a|
  {
    if a != [] {
      assert a[1..] == b[1..][..|a| - 1];
      PrefixLess(a[1..], b[1..]);
    }
  }

  /** Strictly increasing, hence without repetitions. */
  predicate Sorted(s: seq<string>)
  {
    forall i, j :: 0 <= i < j < |s| ==> Less(s[i], s[j])
  }

  /** m sorts before every other name of s. */
  predicate Least(m: string, s: set<string>)
  {
    m in s && forall y :: y in s && y != m ==> Less(m, y)
  }

  /** A non-empty set of names has a least one. */
  lemma {:induction false} LeastExists(s: set<string>) returns (m: string)
    requires s != {}
    ensures Least(m, s)
    decreases |s|
  {
    var x :| x in s;
    if s == {x} {
      m := x;
    } else {
      var m' := LeastExists(s - {x});
      if Less(x, m') {
        m := x;
        forall y | y in s && y != x
          ensures Less(x, y)
        {
          if y != m' {
            LessTransitive(x, m', y);
          }
        }
      } else {
        m := m';
        LessTotal(x, m');
      }
    }
  }

  /** A name before every name of a sorted listing heads a sorted listing. */
  lemma ConsSorted(m: string, rest: seq<string>)
    requires Sorted(rest)
    requires forall j :: 0 <= j < |rest| ==> Less(m, rest[j])
    ensures Sorted([m] + rest)
  {
    var r := [m] + rest;
    forall i, j | 0 <= i < j < |r|
      ensures Less(r[i], r[j])
    {
      assert r[j] == rest[j - 1];
      if i > 0 {
        assert r[i] == rest[i - 1];
      }
    }
  }

  /** The names of a set, each once, in order. */
  ghost function SortedKeys(s: set<string>): (r: seq<string>)
    ensures Sorted(r)
    ensures forall x :: x in r <==> x in s
    ensures |r| == |s|
    decreases |s|
  {
    if s == {} then []
    else
      assert exists m :: Least(m, s) by {
        var m := LeastExists(s);
      }
      var m :| Least(m, s);
      var rest := SortedKeys(s - {m});
      assert forall j :: 0 <= j < |rest| ==> rest[j] in s - {m};
      ConsSorted(m, rest);
      [m] + rest
  }

  /** A set has one sorted listing. */
  lemma {:induction false} SortedUnique(a: seq<string>, b: seq<string>)
    requires Sorted(a) && Sorted(b)
    requires forall x :: x in a <==> x in b
    requires |a| == |b|
    ensures a == b
    decreases |a|
  {
    if a != [] {
      assert a[0] in b;
      assert b != [] && b[0] in a;
      if a[0] != b[0] {
        var i :| 0 <= i < |a| && a[i] == b[0];
        var j :| 0 <= j < |b| && b[j] == a[0];
        assert Less(a[0], b[0]) && Less(b[0], a[0]);
        LessAsymmetric(a[0], b[0]);
      }
      forall x
        ensures x in a[1..] <==> x in b[1..]
      {
        if x in a[1..] {
          var i :| 1 <= i < |a| && a[i] == x;
          LessIrreflexive(x);
          assert x in b;
          var j :| 0 <= j < |b| && b[j] == x;
          assert j != 0 by { assert Less(a[0], a[i]); }
          assert b[1..][j - 1] == x;
        }
        if x in b[1..] {
          var j :| 1 <= j < |b| && b[j] == x;
          LessIrreflexive(x);
          assert x in a;
          var i :| 0 <= i < |a| && a[i] == x;
          assert i != 0 by { assert Less(b[0], b[j]); }
          assert a[1..][i - 1] == x;
        }
      }
      SortedUnique(a[1..], b[1..]);
      assert a == [a[0]] + a[1..] && b == [b[0]] + b[1..];
    }
  }

  /** The names before position i of a sorted listing are its names that
      sort before the i-th. */
  lemma SortedPrefix(s: seq<string>, i: int)
    requires Sorted(s) && 0 <= i < |s|
    ensures forall y :: y in s[..i] <==> y in s && Less(y, s[i])
  {
    forall y | y in s && Less(y, s[i])
      ensures y in s[..i]
    {
      var j :| 0 <= j < |s| && s[j] == y;
      if j == i {
        LessIrreflexive(y);
      } else if j > i {
        LessAsymmetric(y, s[i]);
      }
      assert s[..i][j] == y;
    }
  }

  /** os.ReadDir: the names of a directory's entries, each once, sorted. */
  method ReadDir(entries: set<string>) returns (listing: seq<string>)
    ensures listing == SortedKeys(entries)
  {
    listing := [];
    var rest := entries;
    while rest != {}
      invariant rest <= entries
      invariant Sorted(listing)
      invariant forall x :: x in listing <==> x in entries && x !in rest
      invariant |listing| + |rest| == |entries|
      decreases |rest|
    {
      var x :| x in rest;
      listing := Insert(listing, x);
      rest := rest - {x};
    }
    SortedUnique(listing, SortedKeys(entries));
  }

  /** Puts a new name into a sorted listing at its place. */
  method Insert(s: seq<string>, x: string) returns (r: seq<string>)
    requires Sorted(s) && x !in s
    ensures Sorted(r)
    ensures forall y :: y in r <==> y in s || y == x
    ensures |r| == |s| + 1
  {
    var i := 0;
    while i < |s| && Less(s[i], x)
      invariant 0 <= i <= |s|
      invariant forall j :: 0 <= j < i ==> Less(s[j], x)
    {
      i := i + 1;
    }
    if i < |s| {
      LessTotal(s[i], x);
      forall j | i < j < |s|
        ensures Less(x, s[j])
      {
        LessTransitive(x, s[i], s[j]);
      }
    }
    r := s[..i] + [x] + s[i..];
    forall p, q | 0 <= p < q < |r|
      ensures Less(r[p], r[q])
    {
      if q > i && p < i {
        assert r[p] == s[p] && r[q] == s[q - 1];
      } else if q > i && p > i {
        assert r[p] == s[p - 1] && r[q] == s[q - 1];
      }
    }
    assert forall y :: y in s <==> y in s[..i] || y in s[i..] by {
      assert s == s[..i] + s[i..];
    }
  }
}

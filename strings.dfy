/** The three operations of Go's strings package that the services use to
    read identities out of file names: Split, Contains and ReplaceAll with an
    empty replacement. */
module Strings {

  /** strings.Split(s, string(sep)): the pieces of s between the occurrences
      of sep, in order. The empty string gives one empty piece. */
  function Split(s: string, sep: char): (r: seq<string>)
    ensures |r| >= 1
    ensures forall i :: 0 <= i < |r| ==> sep !in r[i]
    ensures |r| >= 2 <==> sep in s
    decreases |s|
  {
    if s == [] then [[]]
    else
      var rest := Split(s[1..], sep);
      if s[0] == sep then [[]] + rest
      else [[s[0]] + rest[0]] + rest[1..]
  }

  /** strings.Join(fields, string(sep)), the inverse of Split. */
  function Join(fields: seq<string>, sep: char): string
    requires |fields| >= 1
  {
    if |fields| == 1 then fields[0] else fields[0] + [sep] + Join(fields[1..], sep)
  }

  /** Splitting loses nothing: joining the pieces gives back the string. */
  lemma {:induction false} JoinSplit(s: string, sep: char)
    ensures Join(Split(s, sep), sep) == s
  {
    if s != [] {
      JoinSplit(s[1..], sep);
      var rest := Split(s[1..], sep);
      if s[0] == sep {
        assert ([[]] + rest)[1..] == rest;
      } else if |rest| > 1 {
        var r := [[s[0]] + rest[0]] + rest[1..];
        assert r[1..] == rest[1..];
        assert Join(rest, sep) == rest[0] + [sep] + Join(rest[1..], sep);
      }
    }
  }

  /** A prefix without sep extends the first piece and leaves the others alone. */
  lemma {:induction false} SplitPrefix(a: string, b: string, sep: char)
    requires sep !in a
    ensures Split(a + b, sep) == [a + Split(b, sep)[0]] + Split(b, sep)[1..]
    decreases |a|
  {
    if a != [] {
      assert (a + b)[1..] == a[1..] + b;
      SplitPrefix(a[1..], b, sep);
      assert [a[0]] + (a[1..] + Split(b, sep)[0]) == a + Split(b, sep)[0];
    } else {
      var r := Split(b, sep);
      assert a + b == b && a + r[0] == r[0];
      assert r == [r[0]] + r[1..];
    }
  }

  /** Pieces without sep, joined with sep, split back into the same pieces. */
  lemma {:induction false} SplitJoin(fields: seq<string>, sep: char)
    requires |fields| >= 1
    requires forall i :: 0 <= i < |fields| ==> sep !in fields[i]
    ensures Split(Join(fields, sep), sep) == fields
  {
    if |fields| == 1 {
      SplitPrefix(fields[0], [], sep);
      assert Split([], sep) == [[]];
      assert fields[0] + [] == fields[0];
      assert Split(fields[0], sep) == [fields[0]] + [];
      assert fields == [fields[0]];
    } else {
      var tail := Join(fields[1..], sep);
      SplitJoin(fields[1..], sep);
      assert fields[0] + [sep] + tail == fields[0] + ([sep] + tail);
      SplitPrefix(fields[0], [sep] + tail, sep);
      assert ([sep] + tail)[1..] == tail;
      assert Split([sep] + tail, sep) == [[]] + fields[1..];
      assert fields[0] + [] == fields[0];
      assert fields == [fields[0]] + fields[1..];
    }
  }

  /** The `name-version` encoding: two pieces without sep come back out of a
      split as fields 0 and 1. */
  lemma SplitPair(a: string, b: string, sep: char)
    requires sep !in a && sep !in b
    ensures Split(a + [sep] + b, sep) == [a, b]
  {
    SplitJoin([a, b], sep);
    assert [a, b][1..] == [b];
  }

  /** A string without sep is its own only field. */
  lemma {:induction false} SplitFieldCount(s: string, sep: char)
    ensures sep !in s ==> Split(s, sep) == [s]
    decreases |s|
  {
    if s != [] {
      SplitFieldCount(s[1..], sep);
      assert s == [s[0]] + s[1..];
    }
  }

  /** When sep occurs, field 0 followed by sep is a prefix of the string. */
  lemma {:induction false} SplitHead(s: string, sep: char)
    requires sep in s
    ensures |Split(s, sep)[0]| < |s|
    ensures Split(s, sep)[0] + [sep] == s[..|Split(s, sep)[0]| + 1]
    decreases |s|
  {
    if s[0] != sep {
      SplitHead(s[1..], sep);
    }
  }

  /** strings.Contains(s, sub): sub occurs in s at some position. */
  predicate Contains(s: string, sub: string)
    decreases |s|
  {
    if |s| < |sub| then false
    else if s[..|sub|] == sub then true
    else s != [] && Contains(s[1..], sub)
  }

  /** sub occurs in s starting at index i. */
  predicate OccursAt(s: string, sub: string, i: nat)
  {
    i + |sub| <= |s| && s[i..i + |sub|] == sub
  }

  /** Contains agrees with the definition by positions. */
  lemma {:induction false} ContainsIff(s: string, sub: string)
    ensures Contains(s, sub) <==> exists i: nat :: OccursAt(s, sub, i)
    decreases |s|
  {
    if |s| >= |sub| && s[..|sub|] != sub && s != [] {
      ContainsIff(s[1..], sub);
      if Contains(s, sub) {
        var i: nat :| OccursAt(s[1..], sub, i);
        assert s[i + 1..i + 1 + |sub|] == s[1..][i..i + |sub|];
        assert OccursAt(s, sub, i + 1);
      }
      if exists i: nat :: OccursAt(s, sub, i) {
        var i: nat :| OccursAt(s, sub, i);
        assert i != 0;
        assert s[1..][i - 1..i - 1 + |sub|] == s[i..i + |sub|];
        assert OccursAt(s[1..], sub, i - 1);
      }
    } else if |s| >= |sub| && s[..|sub|] == sub {
      assert OccursAt(s, sub, 0);
    }
  }

  /** A string contains each of its prefixes. */
  lemma ContainsPrefix(s: string, n: nat)
    requires n <= |s|
    ensures Contains(s, s[..n])
  {
  }

  /** A string contains each of its suffixes. */
  lemma ContainsSuffix(a: string, b: string)
    ensures Contains(a + b, b)
  {
    assert (a + b)[|a|..|a| + |b|] == b;
    assert OccursAt(a + b, b, |a|);
    ContainsIff(a + b, b);
  }

  /** An occurrence inside a prefix of s is an occurrence in s. */
  lemma ContainsInPrefix(s: string, n: nat, sub: string)
    requires n <= |s| && Contains(s[..n], sub)
    ensures Contains(s, sub)
  {
    ContainsIff(s[..n], sub);
    var i: nat :| OccursAt(s[..n], sub, i);
    assert s[i..i + |sub|] == s[..n][i..i + |sub|];
    assert OccursAt(s, sub, i);
    ContainsIff(s, sub);
  }

  /** strings.ReplaceAll(s, pat, ""): the occurrences of pat, found from the
      left without overlapping, are removed. */
  function StripAll(s: string, pat: string): (r: string)
    requires pat != []
    ensures |r| <= |s|
    decreases |s|
  {
    if |s| < |pat| then s
    else if s[..|pat|] == pat then StripAll(s[|pat|..], pat)
    else [s[0]] + StripAll(s[1..], pat)
  }

  /** Removing a pattern that does not occur changes nothing. */
  lemma {:induction false} StripAbsent(s: string, pat: string)
    requires pat != [] && !Contains(s, pat)
    ensures StripAll(s, pat) == s
    decreases |s|
  {
    if |s| >= |pat| {
      StripAbsent(s[1..], pat);
      assert s == [s[0]] + s[1..];
    }
  }

  /** Removing a suffix pattern (one whose first character occurs nowhere
      else in it, as in ".jar" and ".rar") from s + pat gives s back, when
      s does not contain the pattern. */
  lemma {:induction false} StripSuffix(s: string, pat: string)
    requires pat != [] && pat[0] !in pat[1..]
    requires !Contains(s, pat)
    ensures StripAll(s + pat, pat) == s
    decreases |s|
  {
    var u := s + pat;
    if s == [] {
      assert u == pat && u[|pat|..] == [];
    } else {
      if |s| >= |pat| {
        assert u[..|pat|] == s[..|pat|];
      } else {
        assert u[|s|] == pat[0];
        assert pat[|s|] == pat[1..][|s| - 1];
      }
      assert u[1..] == s[1..] + pat;
      StripSuffix(s[1..], pat);
      assert s == [s[0]] + s[1..];
    }
  }
}

/** The latest version of a catalog item: the services parse every version
    string with the go-version library, sort the parsed versions ascending
    and take the last one, rendered back to text. The library is not part of
    this model; it is an abstract scheme. */
module Versions {
  import opened Common

  /** leq compares two version strings as go-version's parsed versions
      compare; render is the text String() gives a parsed version. */
  datatype Scheme = Scheme(leq: (string, string) -> bool, render: string -> string)

  /** The comparison is a total preorder: any two versions compare, and the
      comparison is transitive. Distinct strings may compare equal. */
  ghost predicate Valid(scheme: Scheme)
  {
    && (forall a, b :: scheme.leq(a, b) || scheme.leq(b, a))
    && (forall a, b, c :: scheme.leq(a, b) && scheme.leq(b, c) ==> scheme.leq(a, c))
  }

  /** m is one of the versions and no version is above it. */
  predicate IsGreatest(scheme: Scheme, versions: seq<string>, m: string)
  {
    m in versions && forall v :: v in versions ==> scheme.leq(v, m)
  }

  /** v is what the services store as LastVersion: the rendering of a
      greatest version. Ties may render differently; any of them may be
      chosen, as sort.Sort is not stable. */
  ghost predicate IsLatest(scheme: Scheme, versions: seq<string>, v: string)
  {
    exists m :: IsGreatest(scheme, versions, m) && v == scheme.render(m)
  }

  /** The loop that parses, sorts and takes the last element. An empty list
      indexes position -1, which panics. */
  method Latest(scheme: Scheme, versions: seq<string>) returns (r: Result<string>)
    requires Valid(scheme)
    ensures r.Err? <==> versions == []
    ensures r.Err? ==> r.error == IndexOutOfRange
    ensures r.Ok? ==> IsLatest(scheme, versions, r.value)
  {
    if |versions| == 0 {
      return Err(IndexOutOfRange);
    }
    var best := versions[0];
    for i := 1 to |versions|
      invariant best in versions[..i]
      invariant forall j :: 0 <= j < i ==> scheme.leq(versions[j], best)
    {
      if scheme.leq(best, versions[i]) {
        best := versions[i];
      }
    }
    assert versions[..|versions|] == versions;
    assert IsGreatest(scheme, versions, best);
    return Ok(scheme.render(best));
  }
}

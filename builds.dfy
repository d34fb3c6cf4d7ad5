/** The Paper and Velocity services. Each keeps one server build in its own
    directory under the name `<family>-<version>.rar`. The two services are
    the same code except for the family name, so one class models both. */
module Builds {
  import opened Common
  import opened Strings
  import opened Listing
  import opened Versions

  datatype Family = Paper | Velocity

  function Prefix(family: Family): string
  {
    match family
    case Paper => "paper"
    case Velocity => "velocity"
  }

  /** The file UpdatePaperVersion / UpdateVelocityVersion creates. */
  function BuildName(family: Family, version: string): string
  {
    Prefix(family) + "-" + version + ".rar"
  }

  /** GET /paper/{version} or /velocity/{version}. */
  function BuildRequest(family: Family, version: string): Request
  {
    Build(Prefix(family), version)
  }

  /** models.PaperResponse and models.VelocityResponse. */
  datatype VersionsResponse = VersionsResponse(success: bool, versions: seq<string>, lastVersion: string)

  /** The version an entry's name carries: field 1 of a split on '-', with
      every ".rar" removed. */
  function EntryVersion(name: string): string
    requires |Split(name, '-')| >= 2
  {
    StripAll(Split(name, '-')[1], ".rar")
  }

  /** GetPaperVersionsInfo / GetVelocityVersionsInfo, once the body is
      decoded: a false success flag is an error, otherwise LastVersion is
      set to the latest of the versions. */
  method GetVersionsInfo(response: VersionsResponse, scheme: Scheme) returns (r: Result<VersionsResponse>)
    requires Valid(scheme)
    ensures !response.success ==> r == Err(CatalogError)
    ensures response.success ==> (r.Err? <==> response.versions == [])
    ensures response.success && r.Err? ==> r.error == IndexOutOfRange
    ensures r.Ok? ==> r.value.success && r.value.versions == response.versions
    ensures r.Ok? ==> IsLatest(scheme, response.versions, r.value.lastVersion)
  {
    if !response.success {
      return Err(CatalogError);
    }
    var last := Latest(scheme, response.versions);
    if last.Err? {
      return Err(last.error);
    }
    return Ok(response.(lastVersion := last.value));
  }

  /** Download the build of `last`, then create its file. */
  function Install(family: Family, entries: set<string>, last: string, served: set<Request>): Pass<set<string>>
  {
    var req := BuildRequest(family, last);
    if req in served then Pass(Done, entries + {BuildName(family, last)}, [req])
    else Pass(Fail(DownloadError), entries, [req])
  }

  /** What one update does to the directory once the catalog has named
      `last`. Not exactly one entry: remove them all, then install. One entry
      without ".rar": remove it, then install. One ".rar" entry: read its
      version (no '-' in it panics); whether or not that version equals
      `last`, install without removing the entry. */
  ghost function BuildPass(family: Family, entries: set<string>, last: string, served: set<Request>): Pass<set<string>>
  {
    if |entries| != 1 then Install(family, {}, last, served)
    else
      var e :| e in entries;
      if !Contains(e, ".rar") then Install(family, {}, last, served)
      else if |Split(e, '-')| < 2 then Pass(Fail(IndexOutOfRange), entries, [])
      else Install(family, entries, last, served)
  }

  /** A run that gets past reading the entries asks for exactly one download,
      of `last`; it succeeds exactly when that download does, and then the
      new build is present and nothing else was added. A failed download
      adds nothing. */
  lemma PassDownloadsOnce(family: Family, entries: set<string>, last: string, served: set<Request>)
    ensures var p := BuildPass(family, entries, last, served);
      && (p.outcome != Fail(IndexOutOfRange) ==> p.fetched == [BuildRequest(family, last)])
      && (p.outcome == Done <==> p.fetched == [BuildRequest(family, last)] && BuildRequest(family, last) in served)
      && (p.outcome == Done ==> BuildName(family, last) in p.state && p.state <= entries + {BuildName(family, last)})
      && (p.outcome.Fail? ==> p.state <= entries)
  {
  }

  /** Zero or several entries: all are removed and only the new build is left. */
  lemma PassClearsUnlessSingle(family: Family, entries: set<string>, last: string, served: set<Request>)
    requires |entries| != 1 && BuildRequest(family, last) in served
    ensures BuildPass(family, entries, last, served) == Pass(Done, {BuildName(family, last)}, [BuildRequest(family, last)])
  {
    assert {} + {BuildName(family, last)} == {BuildName(family, last)};
  }

  /** A sole entry without ".rar" is removed and the new build is written. */
  lemma PassReplacesNonRar(family: Family, e: string, last: string, served: set<Request>)
    requires !Contains(e, ".rar") && BuildRequest(family, last) in served
    ensures BuildPass(family, {e}, last, served) == Pass(Done, {BuildName(family, last)}, [BuildRequest(family, last)])
  {
    var e' :| e' in {e};
    assert e' == e;
  }

  /** A sole ".rar" entry without '-' (such as "paper.rar") panics before any
      download. */
  lemma PassPanicsOnDashlessRar(family: Family, e: string, last: string, served: set<Request>)
    requires Contains(e, ".rar") && '-' !in e
    ensures BuildPass(family, {e}, last, served) == Pass(Fail(IndexOutOfRange), {e}, [])
  {
    var e' :| e' in {e};
    assert e' == e;
    SplitFieldCount(e, '-');
  }

  /** Writing and reading back the build name: for a version without '-'
      and without ".rar", the sole-entry branch reads back that version. */
  lemma {:induction false} BuildNameRoundTrip(family: Family, v: string)
    requires '-' !in v && !Contains(v, ".rar")
    ensures Contains(BuildName(family, v), ".rar")
    ensures Split(BuildName(family, v), '-') == [Prefix(family), v + ".rar"]
    ensures EntryVersion(BuildName(family, v)) == v
  {
    var p := Prefix(family);
    assert BuildName(family, v) == p + "-" + v + ".rar";
    ContainsSuffix(p + "-" + v, ".rar");
    assert p + "-" + v + ".rar" == p + ['-'] + (v + ".rar");
    SplitPair(p, v + ".rar", '-');
    StripSuffix(v, ".rar");
  }

  /** The written build name holds ".rar" and a '-', so as a sole entry it
      takes the branch that reads a version. */
  lemma BuildNameShape(family: Family, last: string)
    ensures Contains(BuildName(family, last), ".rar") && '-' in BuildName(family, last)
  {
    var n := BuildName(family, last);
    ContainsSuffix(Prefix(family) + "-" + last, ".rar");
    assert Prefix(family) + "-" + last + ".rar" == Prefix(family) + "-" + (last + ".rar");
    assert n[|Prefix(family)|] == '-';
  }

  /** A sole ".rar" entry with a '-' is never removed, whether or not its
      version equals `last`: the one download of `last` is made, and when it
      is served the new build is written beside the entry, so two files
      remain unless the entry already has the new build's name. */
  lemma PassKeepsOldBuild(family: Family, e: string, last: string, served: set<Request>)
    requires Contains(e, ".rar") && '-' in e
    ensures var p := BuildPass(family, {e}, last, served);
      var req := BuildRequest(family, last);
      && p.fetched == [req]
      && (p.outcome == Done <==> req in served)
      && p.state == (if req in served then {e, BuildName(family, last)} else {e})
      && (req in served && e != BuildName(family, last) ==> |p.state| == 2)
  {
    var e' :| e' in {e};
    assert e' == e;
    assert {e} + {BuildName(family, last)} == {e, BuildName(family, last)};
  }

  /** The branch where the sole ".rar" entry already carries `last`: the
      version on disk is downloaded again, and the entry stays beside the
      written build, so one file remains only when the entry's name is
      exactly the build name (a name such as "paper-1.0-old.rar" or
      "server-1.0.rar" at version 1.0 leaves two). */
  lemma PassRedownloadsCurrent(family: Family, e: string, last: string, served: set<Request>)
    requires Contains(e, ".rar") && '-' in e && EntryVersion(e) == last
    requires BuildRequest(family, last) in served
    ensures var p := BuildPass(family, {e}, last, served);
      && p.outcome == Done
      && p.fetched == [BuildRequest(family, EntryVersion(e))]
      && p.state == {e, BuildName(family, last)}
      && (|p.state| == 1 <==> e == BuildName(family, last))
  {
    PassKeepsOldBuild(family, e, last, served);
  }

  /** A set of one element holding n is {n}. */
  lemma SoleMember(s: set<string>, n: string)
    requires n in s && |s| == 1
    ensures s == {n}
  {
    assert |s - {n}| == 0;
    assert s - {n} == {};
  }

  /** After a successful run, a second successful run with the same latest
      version leaves exactly the one build, whatever the directory held
      before the first. */
  lemma PassConverges(family: Family, entries: set<string>, last: string, served: set<Request>)
    requires BuildPass(family, entries, last, served).outcome == Done
    ensures var p2 := BuildPass(family, BuildPass(family, entries, last, served).state, last, served);
      p2.outcome == Done && p2.state == {BuildName(family, last)}
  {
    var n := BuildName(family, last);
    PassDownloadsOnce(family, entries, last, served);
    var s1 := BuildPass(family, entries, last, served).state;
    if |s1| == 1 {
      SoleMember(s1, n);
      BuildNameShape(family, last);
      PassKeepsOldBuild(family, n, last, served);
      assert {n, n} == {n};
    } else {
      PassClearsUnlessSingle(family, s1, last, served);
    }
  }

  /** The service of one family: the names in its directory, and the
      downloads it has asked for. */
  class BuildService {
    const family: Family
    var entries: set<string>
    ghost var fetched: seq<Request>

    constructor (family: Family, entries: set<string>)
      ensures this.family == family && this.entries == entries && fetched == []
    {
      this.family := family;
      this.entries := entries;
      fetched := [];
    }

    /** DownloadPaper / DownloadVelocity: true when the endpoint answers 200. */
    method Download(version: string, served: set<Request>) returns (ok: bool)
      modifies this
      ensures ok == (BuildRequest(family, version) in served)
      ensures fetched == old(fetched) + [BuildRequest(family, version)]
      ensures entries == old(entries)
    {
      ok := BuildRequest(family, version) in served;
      fetched := fetched + [BuildRequest(family, version)];
    }

    /** UpdatePaperVersion / UpdateVelocityVersion: create (or truncate) the
        build file. */
    method WriteVersion(version: string)
      modifies this
      ensures entries == old(entries) + {BuildName(family, version)}
      ensures fetched == old(fetched)
    {
      entries := entries + {BuildName(family, version)};
    }

    /** os.RemoveAll of one entry of the directory. */
    method Remove(name: string)
      modifies this
      ensures entries == old(entries) - {name}
      ensures fetched == old(fetched)
    {
      entries := entries - {name};
    }

    /** Removes every entry of a listing of the directory. */
    method RemoveEach(listing: seq<string>)
      requires forall x :: x in listing <==> x in entries
      modifies this
      ensures entries == {} && fetched == old(fetched)
    {
      var i := 0;
      while i < |listing|
        invariant 0 <= i <= |listing|
        invariant forall x :: x in entries <==> x in old(entries) && x !in listing[..i]
        invariant fetched == old(fetched)
      {
        Remove(listing[i]);
        assert listing[..i + 1] == listing[..i] + [listing[i]];
        i := i + 1;
      }
      assert listing[..i] == listing;
    }

    /** DownloadPaper then UpdatePaperVersion (or the Velocity ones). */
    method InstallLatest(last: string, served: set<Request>) returns (r: Outcome)
      modifies this
      ensures var p := Install(family, old(entries), last, served);
        r == p.outcome && entries == p.state && fetched == old(fetched) + p.fetched
    {
      var ok := Download(last, served);
      if !ok {
        return Fail(DownloadError);
      }
      WriteVersion(last);
      return Done;
    }

    /** The part of UpdatePaper / UpdateVelocity after the catalog gave
        `last`: the decision over the directory's entries. */
    method Reconcile(last: string, served: set<Request>) returns (r: Outcome)
      modifies this
      ensures var p := BuildPass(family, old(entries), last, served);
        r == p.outcome && entries == p.state && fetched == old(fetched) + p.fetched
    {
      var listing := ReadDir(entries);
      if |listing| != 1 {
        RemoveEach(listing);
        r := InstallLatest(last, served);
        return;
      }
      // The loop over the entries runs once, on the sole entry.
      var name := listing[0];
      assert entries == {name};
      if !Contains(name, ".rar") {
        Remove(name);
      } else {
        var fields := Split(name, '-');
        if |fields| < 2 {
          return Fail(IndexOutOfRange);
        }
        var version := StripAll(fields[1], ".rar");
        if version != last {
          r := InstallLatest(last, served);
          return;
        }
      }
      r := InstallLatest(last, served);
    }

    /** UpdatePaper / UpdateVelocity: fetch the catalog's latest version,
        then reconcile the directory with it. */
    method Update(response: VersionsResponse, scheme: Scheme, served: set<Request>) returns (r: Outcome)
      requires Valid(scheme)
      modifies this
      ensures !response.success ==> r == Fail(CatalogError) && entries == old(entries) && fetched == old(fetched)
      ensures response.success && response.versions == [] ==>
        r == Fail(IndexOutOfRange) && entries == old(entries) && fetched == old(fetched)
      ensures response.success && response.versions != [] ==>
        exists last :: IsLatest(scheme, response.versions, last) &&
          var p := BuildPass(family, old(entries), last, served);
          r == p.outcome && entries == p.state && fetched == old(fetched) + p.fetched
    {
      var info := GetVersionsInfo(response, scheme);
      if info.Err? {
        return Fail(info.error);
      }
      r := Reconcile(info.value.lastVersion, served);
    }
  }
}

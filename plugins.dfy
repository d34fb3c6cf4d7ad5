/** The plugin service. The plugins directory holds files named
    `<name>-<version>.jar`; a pass reads the local versions out of the file
    names, fetches the catalog, and replaces every plugin whose local version
    differs from the catalog's latest. */
module Plugins {
  import opened Common
  import opened Strings
  import opened Listing
  import opened Versions

  /** models.Plugin. */
  datatype Plugin = Plugin(name: string, versions: seq<string>, lastVersion: string)

  /** models.PluginsResponse. */
  datatype PluginsResponse = PluginsResponse(success: bool, plugins: seq<Plugin>)

  /** The name a plugin file carries: field 0 of a split on '-'. */
  function NameOf(file: string): string
  {
    Split(file, '-')[0]
  }

  /** The version a plugin file carries: field 1 of a split on '-', with
      every ".jar" removed. Field 1 exists only when the name has a '-'. */
  function VersionOf(file: string): string
    requires '-' in file
  {
    StripAll(Split(file, '-')[1], ".jar")
  }

  /** The file UpdatePlugin creates. */
  function JarName(name: string, version: string): string
  {
    name + "-" + version + ".jar"
  }

  /** Reading a created file's name back gives the name and version it was
      created with, when neither has a '-' and the version has no ".jar";
      the second ".jar" removal of the update step changes nothing more. */
  lemma JarNameRoundTrip(name: string, version: string)
    requires '-' !in name && '-' !in version && !Contains(version, ".jar")
    ensures '-' in JarName(name, version)
    ensures NameOf(JarName(name, version)) == name
    ensures VersionOf(JarName(name, version)) == version
    ensures StripAll(VersionOf(JarName(name, version)), ".jar") == version
  {
    var tail := version + ".jar";
    assert JarName(name, version) == name + ['-'] + tail;
    assert '-' !in tail by {
      assert forall i :: 0 <= i < |tail| ==> tail[i] == if i < |version| then version[i] else ".jar"[i - |version|];
    }
    SplitPair(name, tail, '-');
    StripSuffix(version, ".jar");
    StripAbsent(version, ".jar");
  }

  // ---------------------------------------------------------------------
  // The scan of the plugins directory (UpdatePlugins)
  // ---------------------------------------------------------------------

  /** No other file of the directory has the same name field as f. */
  predicate UniqueName(files: set<string>, f: string)
  {
    forall g :: g in files && NameOf(g) == NameOf(f) ==> g == f
  }

  /** What the scan yields when it does not panic: every file has a '-', and
      the local-version map holds exactly the names that one file alone
      carries, each mapped to that file's version. A name two files share is
      absent. */
  ghost predicate Scanned(files: set<string>, local: map<string, string>)
  {
    && (forall f :: f in files ==> '-' in f)
    && (forall n :: n in local <==> exists f :: f in files && NameOf(f) == n && UniqueName(files, f))
    && (forall f :: f in files && UniqueName(files, f) ==> NameOf(f) in local && local[NameOf(f)] == VersionOf(f))
  }

  /** In a sorted listing whose earlier names all have a '-', a name without
      '-' is the name field of no earlier entry: were it, it would be a
      proper prefix of that entry and sort before it. */
  lemma DashlessComesFirst(listing: seq<string>, i: int)
    requires Sorted(listing) && 0 <= i < |listing|
    requires '-' !in listing[i]
    requires forall j :: 0 <= j < i ==> '-' in listing[j]
    ensures forall j :: 0 <= j < i ==> NameOf(listing[j]) != NameOf(listing[i])
  {
    SplitFieldCount(listing[i], '-');
    forall j | 0 <= j < i
      ensures NameOf(listing[j]) != NameOf(listing[i])
    {
      if NameOf(listing[j]) == listing[i] {
        SplitHead(listing[j], '-');
        assert listing[i] == listing[j][..|listing[i]|];
        PrefixLess(listing[i], listing[j]);
        LessAsymmetric(listing[j], listing[i]);
      }
    }
  }

  /** No earlier entry of the listing has the name field of entry j. */
  predicate FirstNamed(listing: seq<string>, j: int)
    requires 0 <= j < |listing|
  {
    forall k :: 0 <= k < j ==> NameOf(listing[k]) != NameOf(listing[j])
  }

  /** Entries j < k of the listing share the name field n. */
  predicate SharedAt(listing: seq<string>, n: string, j: int, k: int)
  {
    0 <= j < k < |listing| && NameOf(listing[j]) == n && NameOf(listing[k]) == n
  }

  /** The first i entries of the listing all have a '-'. */
  predicate Dashed(listing: seq<string>, i: int)
    requires 0 <= i <= |listing|
  {
    forall j :: 0 <= j < i ==> '-' in listing[j]
  }

  /** versions holds the name field of each of the first i entries, and for
      the first entry of each name, that entry's version. */
  ghost predicate Recorded(listing: seq<string>, i: int, versions: map<string, string>)
    requires 0 <= i <= |listing| && Dashed(listing, i)
  {
    && (forall n :: n in versions <==> exists j :: 0 <= j < i && NameOf(listing[j]) == n)
    && (forall j {:trigger FirstNamed(listing, j)} :: 0 <= j < i && FirstNamed(listing, j) ==>
          NameOf(listing[j]) in versions && versions[NameOf(listing[j])] == VersionOf(listing[j]))
  }

  /** duplicates holds every name two of the first i entries share. */
  ghost predicate Repeated(listing: seq<string>, i: int, duplicates: seq<string>)
  {
    forall n :: n in duplicates <==> exists j, k :: k < i && SharedAt(listing, n, j, k)
  }

  /** What the scan loop knows after the first i entries. */
  ghost predicate ScanState(listing: seq<string>, i: int, versions: map<string, string>, duplicates: seq<string>)
  {
    0 <= i <= |listing| && Dashed(listing, i) && Recorded(listing, i, versions) && Repeated(listing, i, duplicates)
  }

  /** An entry whose name field an earlier entry has, in a sorted listing
      whose earlier entries all have a '-', has a '-' too: a dashless one
      would sort before every entry it names. */
  lemma RepeatedNameHasDash(listing: seq<string>, i: int)
    requires Sorted(listing) && 0 <= i < |listing| && Dashed(listing, i)
    requires exists j :: 0 <= j < i && NameOf(listing[j]) == NameOf(listing[i])
    ensures '-' in listing[i]
  {
    if '-' !in listing[i] {
      DashlessComesFirst(listing, i);
    }
  }

  /** An entry whose name was met before is recorded as a duplicate. */
  lemma ScanStepRepeated(listing: seq<string>, i: int, versions: map<string, string>, duplicates: seq<string>)
    requires ScanState(listing, i, versions, duplicates) && i < |listing|
    requires NameOf(listing[i]) in versions && '-' in listing[i]
    ensures ScanState(listing, i + 1, versions, duplicates + [NameOf(listing[i])])
  {
    var n := NameOf(listing[i]);
    var j :| 0 <= j < i && NameOf(listing[j]) == n;
    assert Dashed(listing, i + 1);
    assert Recorded(listing, i + 1, versions) by {
      assert !FirstNamed(listing, i);
    }
    assert Repeated(listing, i + 1, duplicates + [n]) by {
      assert SharedAt(listing, n, j, i);
      forall m | m in duplicates + [n]
        ensures exists j', k' :: k' < i + 1 && SharedAt(listing, m, j', k')
      {
        if m != n {
          assert m in duplicates;
        }
      }
    }
  }

  /** An entry whose name is new adds its version. */
  lemma ScanStepNew(listing: seq<string>, i: int, versions: map<string, string>, duplicates: seq<string>)
    requires ScanState(listing, i, versions, duplicates) && i < |listing|
    requires NameOf(listing[i]) !in versions && '-' in listing[i]
    ensures ScanState(listing, i + 1, versions[NameOf(listing[i]) := VersionOf(listing[i])], duplicates)
  {
    var n := NameOf(listing[i]);
    var v := versions[n := VersionOf(listing[i])];
    assert Dashed(listing, i + 1);
    assert Recorded(listing, i + 1, v) by {
      assert FirstNamed(listing, i);
      forall j | 0 <= j < i && FirstNamed(listing, j)
        ensures NameOf(listing[j]) in v && v[NameOf(listing[j])] == VersionOf(listing[j])
      {
        assert NameOf(listing[j]) != n;
      }
    }
    assert Repeated(listing, i + 1, duplicates) by {
      forall m, j, k | k < i + 1 && SharedAt(listing, m, j, k)
        ensures m in duplicates
      {
        assert NameOf(listing[j]) in versions;
        assert k < i;
      }
    }
  }

  /** A sorted listing repeats no name. */
  lemma SortedDistinct(listing: seq<string>, a: int, b: int)
    requires Sorted(listing) && 0 <= a < b < |listing|
    ensures listing[a] != listing[b]
  {
    LessIrreflexive(listing[a]);
  }

  /** A name kept after the duplicates are dropped is carried by one file. */
  lemma KeptNameUnique(files: set<string>, listing: seq<string>, versions: map<string, string>,
                       duplicates: seq<string>, j: int)
    requires ScanState(listing, |listing|, versions, duplicates)
    requires forall x :: x in listing <==> x in files
    requires 0 <= j < |listing| && NameOf(listing[j]) !in duplicates
    ensures UniqueName(files, listing[j])
  {
    var n := NameOf(listing[j]);
    forall g | g in files && NameOf(g) == n
      ensures g == listing[j]
    {
      var k :| 0 <= k < |listing| && listing[k] == g;
      assert !SharedAt(listing, n, k, j) && !SharedAt(listing, n, j, k);
    }
  }

  /** A file no other file shares its name with is the first of its name,
      and its name is no duplicate. */
  lemma UniqueNameKept(files: set<string>, listing: seq<string>, versions: map<string, string>,
                       duplicates: seq<string>, j: int)
    requires ScanState(listing, |listing|, versions, duplicates)
    requires Sorted(listing) && forall x :: x in listing <==> x in files
    requires 0 <= j < |listing| && UniqueName(files, listing[j])
    ensures FirstNamed(listing, j) && NameOf(listing[j]) !in duplicates
  {
    var n := NameOf(listing[j]);
    forall k | 0 <= k < j
      ensures NameOf(listing[k]) != n
    {
      if NameOf(listing[k]) == n {
        assert listing[k] in files;
        SortedDistinct(listing, k, j);
      }
    }
    if n in duplicates {
      var a, b :| b < |listing| && SharedAt(listing, n, a, b);
      assert listing[a] in files && listing[b] in files;
      SortedDistinct(listing, a, b);
    }
  }

  /** Deleting the duplicated names from the first-seen versions leaves the
      names one file alone carries. */
  lemma ScanResult(files: set<string>, listing: seq<string>, versions: map<string, string>,
                   duplicates: seq<string>, local: map<string, string>)
    requires Sorted(listing) && forall x :: x in listing <==> x in files
    requires ScanState(listing, |listing|, versions, duplicates)
    requires forall n :: n in local <==> n in versions && n !in duplicates
    requires forall n :: n in local ==> local[n] == versions[n]
    ensures Scanned(files, local)
  {
    forall n | n in local
      ensures exists f :: f in files && NameOf(f) == n && UniqueName(files, f)
    {
      var j :| 0 <= j < |listing| && NameOf(listing[j]) == n;
      KeptNameUnique(files, listing, versions, duplicates, j);
      assert listing[j] in files;
    }
    forall f | f in files && UniqueName(files, f)
      ensures NameOf(f) in local && local[NameOf(f)] == VersionOf(f)
    {
      var j :| 0 <= j < |listing| && listing[j] == f;
      UniqueNameKept(files, listing, versions, duplicates, j);
    }
  }

  /** The loop deleting the duplicated names from the local-version map. */
  method DropNames(versions: map<string, string>, duplicates: seq<string>) returns (local: map<string, string>)
    ensures forall n :: n in local <==> n in versions && n !in duplicates
    ensures forall n :: n in local ==> local[n] == versions[n]
  {
    local := versions;
    for d := 0 to |duplicates|
      invariant forall n :: n in local <==> n in versions && n !in duplicates[..d]
      invariant forall n :: n in local ==> local[n] == versions[n]
    {
      assert duplicates[..d + 1] == duplicates[..d] + [duplicates[d]];
      local := local - {duplicates[d]};
    }
    assert duplicates[..|duplicates|] == duplicates;
  }

  /** UpdatePlugins up to the call to update: reads the sorted directory,
      records each name's version from field 1, and drops every name that
      occurs twice. A name without '-' has no field 1, which panics; in
      sorted order that file comes before every file its name field could
      clash with, so the scan panics exactly when such a file exists. */
  method ScanPlugins(files: set<string>) returns (r: Result<map<string, string>>)
    ensures r.Ok? <==> forall f :: f in files ==> '-' in f
    ensures r.Err? ==> r.error == IndexOutOfRange
    ensures r.Ok? ==> Scanned(files, r.value)
  {
    var listing := ReadDir(files);
    var versions: map<string, string> := map[];
    if |listing| == 0 {
      return Ok(versions);
    }
    var duplicates: seq<string> := [];
    for i := 0 to |listing|
      invariant ScanState(listing, i, versions, duplicates)
    {
      var fields := Split(listing[i], '-');
      var name := fields[0];
      if name in versions {
        RepeatedNameHasDash(listing, i);
        ScanStepRepeated(listing, i, versions, duplicates);
        duplicates := duplicates + [name];
        continue;
      }
      if |fields| < 2 {
        assert listing[i] in files;
        return Err(IndexOutOfRange);
      }
      ScanStepNew(listing, i, versions, duplicates);
      versions := versions[name := StripAll(fields[1], ".jar")];
    }
    var local := DropNames(versions, duplicates);
    ScanResult(files, listing, versions, duplicates, local);
    return Ok(local);
  }

  // ---------------------------------------------------------------------
  // The catalog (GetPluginsInfo)
  // ---------------------------------------------------------------------

  /** resolved is raw with each LastVersion set to the latest of its versions. */
  ghost predicate Resolved(scheme: Scheme, raw: seq<Plugin>, resolved: seq<Plugin>)
  {
    && |resolved| == |raw|
    && forall i :: 0 <= i < |raw| ==>
         && resolved[i] == raw[i].(lastVersion := resolved[i].lastVersion)
         && IsLatest(scheme, raw[i].versions, resolved[i].lastVersion)
  }

  /** GetPluginsInfo once the body is decoded: a false success flag is an
      error; otherwise each plugin's LastVersion is written back in place,
      and a plugin without versions panics. */
  method GetPluginsInfo(response: PluginsResponse, scheme: Scheme) returns (r: Result<seq<Plugin>>)
    requires Valid(scheme)
    ensures !response.success ==> r == Err(CatalogError)
    ensures response.success ==>
              (r.Err? <==> exists i :: 0 <= i < |response.plugins| && response.plugins[i].versions == [])
    ensures response.success && r.Err? ==> r.error == IndexOutOfRange
    ensures r.Ok? ==> Resolved(scheme, response.plugins, r.value)
  {
    if !response.success {
      return Err(CatalogError);
    }
    var plugins := response.plugins;
    for index := 0 to |plugins|
      invariant |plugins| == |response.plugins|
      invariant forall i :: 0 <= i < index ==> response.plugins[i].versions != []
      invariant forall i :: index <= i < |plugins| ==> plugins[i] == response.plugins[i]
      invariant forall i :: 0 <= i < index ==>
                  && plugins[i] == response.plugins[i].(lastVersion := plugins[i].lastVersion)
                  && IsLatest(scheme, response.plugins[i].versions, plugins[i].lastVersion)
    {
      var last := Latest(scheme, plugins[index].versions);
      if last.Err? {
        return Err(last.error);
      }
      plugins := plugins[index := plugins[index].(lastVersion := last.value)];
    }
    return Ok(plugins);
  }

  // ---------------------------------------------------------------------
  // The update rule (update)
  // ---------------------------------------------------------------------

  /** The version the update step reads for a catalog name: the value of the
      first local name, in Go's unspecified map order, that contains the
      catalog name, with ".jar" removed once more. */
  method FindLocalVersion(local: map<string, string>, name: string) returns (found: Option<string>)
    ensures found.None? <==> forall k :: k in local ==> !Contains(k, name)
    ensures found.Some? ==> exists k :: k in local && Contains(k, name) && found.value == StripAll(local[k], ".jar")
  {
    var keys := local.Keys;
    while keys != {}
      invariant keys <= local.Keys
      invariant forall k :: k in local && k !in keys ==> !Contains(k, name)
      decreases |keys|
    {
      var k :| k in keys;
      if Contains(k, name) {
        return Some(StripAll(local[k], ".jar"));
      }
      keys := keys - {k};
    }
    return None;
  }

  /** Some local name matching p carries p's latest version, so the update
      step may skip p (it does when the map range meets that name first). */
  predicate MaySkip(local: map<string, string>, p: Plugin)
  {
    exists k :: k in local && Contains(k, p.name) && StripAll(local[k], ".jar") == p.lastVersion
  }

  /** No local name matches p, or one matching name carries another
      version, so the update step may fetch p. */
  predicate MayFetch(local: map<string, string>, p: Plugin)
  {
    || (forall k :: k in local ==> !Contains(k, p.name))
    || exists k :: k in local && Contains(k, p.name) && StripAll(local[k], ".jar") != p.lastVersion
  }

  /** skips[i] records whether the update step skipped catalog[i]; each
      decision is one the map order allows. */
  predicate Decisions(local: map<string, string>, catalog: seq<Plugin>, skips: seq<bool>)
  {
    && |skips| == |catalog|
    && forall i :: 0 <= i < |catalog| ==>
         if skips[i] then MaySkip(local, catalog[i]) else MayFetch(local, catalog[i])
  }

  /** With at most one local name matching p, the decision is forced:
      skip exactly when that name carries p's latest version. */
  lemma DecisionForced(local: map<string, string>, p: Plugin)
    requires forall k, k' :: k in local && k' in local && Contains(k, p.name) && Contains(k', p.name) ==> k == k'
    ensures MaySkip(local, p) <==> !MayFetch(local, p)
  {
  }

  /** The substring match in action: a local "myplugin" at the catalog's
      latest version makes the catalog plugin "plugin" be skipped, so that
      plugin is never downloaded. */
  lemma SubstringMatchSkips()
    ensures MaySkip(map["myplugin" := "1.0"], Plugin("plugin", ["1.0"], "1.0"))
    ensures !MayFetch(map["myplugin" := "1.0"], Plugin("plugin", ["1.0"], "1.0"))
  {
    assert "myplugin"[2..][..6] == "plugin";
    assert Contains("myplugin"[2..], "plugin");
    assert Contains("myplugin"[1..], "plugin");
    assert Contains("myplugin", "plugin");
    assert StripAll("1.0", ".jar") == "1.0";
  }

  /** The directory after DeletePlugin(name): every entry containing name
      is gone, every other entry stays. */
  function Deleted(files: set<string>, name: string): set<string>
  {
    set f | f in files && !Contains(f, name)
  }

  /** The entries of a listing whose names contain `name`. */
  function Matching(listing: seq<string>, name: string): set<string>
  {
    set f | f in listing && Contains(f, name)
  }

  /** One more entry of the listing: removed when its name matches. */
  lemma DeleteStep(files: set<string>, current: set<string>, listing: seq<string>, i: int, name: string)
    requires 0 <= i < |listing|
    requires current == files - Matching(listing[..i], name)
    ensures (if Contains(listing[i], name) then current - {listing[i]} else current) ==
              files - Matching(listing[..i + 1], name)
  {
    assert listing[..i + 1] == listing[..i] + [listing[i]];
    assert Matching(listing[..i + 1], name) ==
             Matching(listing[..i], name) + if Contains(listing[i], name) then {listing[i]} else {};
  }

  /** Past the whole listing of a directory, the matching entries are all
      those DeletePlugin removes. */
  lemma MatchingDone(files: set<string>, listing: seq<string>, name: string)
    requires forall f :: f in listing <==> f in files
    ensures files - Matching(listing[..|listing|], name) == Deleted(files, name)
  {
    assert listing[..|listing|] == listing;
  }

  /** The directory after UpdatePlugin(name, version). */
  function Replaced(files: set<string>, name: string, version: string): set<string>
  {
    Deleted(files, name) + {JarName(name, version)}
  }

  /** After a replacement the new file is the only entry containing the
      plugin's name. */
  lemma ReplacedLeavesOneMatch(files: set<string>, name: string, version: string)
    ensures JarName(name, version) in Replaced(files, name, version)
    ensures forall f :: f in Replaced(files, name, version) ==> (Contains(f, name) <==> f == JarName(name, version))
  {
    var j := JarName(name, version);
    assert j[..|name|] == name;
    ContainsPrefix(j, |name|);
  }

  /** One iteration of the update loop for catalog plugin p. */
  function PluginStep(files: set<string>, p: Plugin, skip: bool, served: set<Request>): Pass<set<string>>
  {
    if skip then Pass(Done, files, [])
    else
      var req := PluginJar(p.name, p.lastVersion);
      if req in served then Pass(Done, Replaced(files, p.name, p.lastVersion), [req])
      else Pass(Fail(DownloadError), files, [req])
  }

  /** The update loop over a catalog with the given skip decisions: it stops
      at the first failed download. */
  function PluginsPass(files: set<string>, catalog: seq<Plugin>, skips: seq<bool>, served: set<Request>): Pass<set<string>>
    requires |skips| == |catalog|
    decreases |catalog|
  {
    if catalog == [] then Pass(Done, files, [])
    else
      var n := |catalog| - 1;
      var p := PluginsPass(files, catalog[..n], skips[..n], served);
      if p.outcome.Fail? then p
      else
        var q := PluginStep(p.state, catalog[n], skips[n], served);
        Pass(q.outcome, q.state, p.fetched + q.fetched)
  }

  /** The update loop removes only entries containing the name of a plugin
      it fetched, and adds only the files of plugins it fetched: a local
      plugin outside the catalog survives unless a fetched name occurs in
      its file name. */
  lemma {:induction false} PassTouchesOnlyMatches(files: set<string>, catalog: seq<Plugin>, skips: seq<bool>, served: set<Request>)
    requires |skips| == |catalog|
    ensures forall f :: f in files && (forall i :: 0 <= i < |catalog| && !skips[i] ==> !Contains(f, catalog[i].name)) ==>
              f in PluginsPass(files, catalog, skips, served).state
    ensures forall f :: f in PluginsPass(files, catalog, skips, served).state ==>
              f in files || exists i :: 0 <= i < |catalog| && !skips[i] && f == JarName(catalog[i].name, catalog[i].lastVersion)
    decreases |catalog|
  {
    if catalog != [] {
      var n := |catalog| - 1;
      PassTouchesOnlyMatches(files, catalog[..n], skips[..n], served);
      assert forall i :: 0 <= i < n ==> catalog[..n][i] == catalog[i] && skips[..n][i] == skips[i];
    }
  }

  /** A pass that fetches nothing changes nothing and downloads nothing. */
  lemma {:induction false} AllSkippedChangesNothing(files: set<string>, catalog: seq<Plugin>, skips: seq<bool>, served: set<Request>)
    requires |skips| == |catalog| && forall i :: 0 <= i < |skips| ==> skips[i]
    ensures PluginsPass(files, catalog, skips, served) == Pass(Done, files, [])
    decreases |catalog|
  {
    if catalog != [] {
      var n := |catalog| - 1;
      AllSkippedChangesNothing(files, catalog[..n], skips[..n], served);
    }
  }

  /** A file's name field is a prefix of it, so what the name field
      contains, the file contains. */
  lemma NameFieldContains(f: string, name: string)
    requires '-' in f && Contains(NameOf(f), name)
    ensures Contains(f, name)
  {
    SplitHead(f, '-');
    assert NameOf(f) == f[..|NameOf(f)|];
    ContainsInPrefix(f, |NameOf(f)|, name);
  }

  /** After a replacement, the new file is the only entry whose name field
      contains the plugin's name. */
  lemma ReplacedOnlyNamed(files: set<string>, name: string, version: string)
    requires '-' !in name && '-' !in version && !Contains(version, ".jar")
    requires forall f :: f in Replaced(files, name, version) ==> '-' in f
    ensures NameOf(JarName(name, version)) == name
    ensures forall f :: f in Replaced(files, name, version) && Contains(NameOf(f), name) ==> f == JarName(name, version)
  {
    JarNameRoundTrip(name, version);
    ReplacedLeavesOneMatch(files, name, version);
    forall f | f in Replaced(files, name, version) && Contains(NameOf(f), name)
      ensures f == JarName(name, version)
    {
      NameFieldContains(f, name);
    }
  }

  /** After a plugin is replaced, the next scan reads back its name and
      latest version and no other matching name, so the next pass skips it. */
  lemma ReplacedThenSkipped(files: set<string>, p: Plugin, local: map<string, string>)
    requires '-' !in p.name && '-' !in p.lastVersion && !Contains(p.lastVersion, ".jar")
    requires Scanned(Replaced(files, p.name, p.lastVersion), local)
    ensures MaySkip(local, p) && !MayFetch(local, p)
  {
    var r := Replaced(files, p.name, p.lastVersion);
    var j := JarName(p.name, p.lastVersion);
    ReplacedOnlyNamed(files, p.name, p.lastVersion);
    JarNameRoundTrip(p.name, p.lastVersion);
    ReplacedLeavesOneMatch(files, p.name, p.lastVersion);
    ContainsPrefix(p.name, |p.name|);
    assert p.name[..|p.name|] == p.name;
    assert UniqueName(r, j);
    assert p.name in local && local[p.name] == p.lastVersion;
    forall k | k in local && Contains(k, p.name)
      ensures k == p.name
    {
      var f :| f in r && NameOf(f) == k && UniqueName(r, f);
    }
  }

  /** Scanning a directory in which two files share a name field leaves the
      name out, so when no other name field contains it the next update
      step must fetch the plugin. */
  lemma DuplicateRefetched(files: set<string>, local: map<string, string>, f: string, g: string, p: Plugin)
    requires Scanned(files, local)
    requires f in files && g in files && f != g && NameOf(f) == p.name && NameOf(g) == p.name
    requires forall h :: h in files && Contains(NameOf(h), p.name) ==> NameOf(h) == p.name
    ensures p.name !in local
    ensures MayFetch(local, p) && !MaySkip(local, p)
  {
    forall k | k in local
      ensures !Contains(k, p.name)
    {
      var h :| h in files && NameOf(h) == k && UniqueName(files, h);
    }
  }

  /** A pass that stopped after the first |skips| catalog plugins: the
      decisions taken, the record they give, and a stop before the end only
      on a failure. */
  predicate Progress(local: map<string, string>, catalog: seq<Plugin>, skips: seq<bool>,
                     served: set<Request>, before: set<string>, p: Pass<set<string>>)
  {
    && |skips| <= |catalog|
    && Decisions(local, catalog[..|skips|], skips)
    && PluginsPass(before, catalog[..|skips|], skips, served) == p
    && (|skips| < |catalog| ==> p.outcome.Fail?)
  }

  /** One iteration of the update loop: the decision FindLocalVersion's
      answer gives is one the map order allows, and the pass takes one
      PluginStep more. */
  lemma ApplyStep(local: map<string, string>, catalog: seq<Plugin>, skips: seq<bool>, i: int,
                  found: Option<string>, skip: bool, served: set<Request>,
                  files: set<string>, current: set<string>, log: seq<Request>)
    requires 0 <= i < |catalog| && |skips| == i
    requires found.None? <==> forall k :: k in local ==> !Contains(k, catalog[i].name)
    requires found.Some? ==> exists k :: k in local && Contains(k, catalog[i].name) && found.value == StripAll(local[k], ".jar")
    requires skip == (found.Some? && catalog[i].lastVersion == found.value)
    requires Decisions(local, catalog[..i], skips)
    requires PluginsPass(files, catalog[..i], skips, served) == Pass(Done, current, log)
    ensures Decisions(local, catalog[..i + 1], skips + [skip])
    ensures var q := PluginStep(current, catalog[i], skip, served);
      PluginsPass(files, catalog[..i + 1], skips + [skip], served) == Pass(q.outcome, q.state, log + q.fetched)
  {
    assert catalog[..i + 1][..i] == catalog[..i];
    assert (skips + [skip])[..i] == skips;
    if !skip && found.Some? {
      var k :| k in local && Contains(k, catalog[i].name) && found.value == StripAll(local[k], ".jar");
      assert MayFetch(local, catalog[i]);
    }
  }

  /** What `update` does with a local-version map and a catalog response:
      catalog errors and empty version lists end it before the directory is
      touched; otherwise it is the update loop over the resolved catalog. */
  ghost predicate Updated(local: map<string, string>, response: PluginsResponse, scheme: Scheme,
                          served: set<Request>, before: set<string>, p: Pass<set<string>>)
  {
    if !response.success then p == Pass(Fail(CatalogError), before, [])
    else if exists i :: 0 <= i < |response.plugins| && response.plugins[i].versions == [] then
      p == Pass(Fail(IndexOutOfRange), before, [])
    else
      exists catalog, skips :: Resolved(scheme, response.plugins, catalog) && Progress(local, catalog, skips, served, before, p)
  }

  class PluginService {
    var files: set<string>
    ghost var fetched: seq<Request>

    constructor (files: set<string>)
      ensures this.files == files && fetched == []
    {
      this.files := files;
      fetched := [];
    }

    /** DownloadPlugin: true when the endpoint answers 200. */
    method DownloadPlugin(name: string, version: string, served: set<Request>) returns (ok: bool)
      modifies this
      ensures ok == (PluginJar(name, version) in served)
      ensures fetched == old(fetched) + [PluginJar(name, version)]
      ensures files == old(files)
    {
      ok := PluginJar(name, version) in served;
      fetched := fetched + [PluginJar(name, version)];
    }

    /** DeletePlugin: removes every entry whose name contains the plugin's
        name. */
    method DeletePlugin(name: string)
      modifies this
      ensures files == Deleted(old(files), name)
      ensures fetched == old(fetched)
    {
      var listing := ReadDir(files);
      for i := 0 to |listing|
        invariant files == old(files) - Matching(listing[..i], name)
        invariant fetched == old(fetched)
      {
        DeleteStep(old(files), files, listing, i, name);
        if Contains(listing[i], name) {
          files := files - {listing[i]};
        }
      }
      MatchingDone(old(files), listing, name);
    }

    /** UpdatePlugin: DeletePlugin, then create `<name>-<version>.jar`. */
    method UpdatePlugin(name: string, version: string)
      modifies this
      ensures files == Replaced(old(files), name, version)
      ensures fetched == old(fetched)
    {
      DeletePlugin(name);
      files := files + {JarName(name, version)};
    }

    /** The loop of `update` over a resolved catalog. */
    method Apply(local: map<string, string>, catalog: seq<Plugin>, served: set<Request>) returns (r: Outcome)
      modifies this
      ensures |fetched| >= |old(fetched)| && fetched[..|old(fetched)|] == old(fetched)
      ensures exists skips :: Progress(local, catalog, skips, served, old(files), Pass(r, files, fetched[|old(fetched)|..]))
    {
      ghost var skips: seq<bool> := [];
      ghost var log: seq<Request> := [];
      for i := 0 to |catalog|
        invariant |skips| == i
        invariant Decisions(local, catalog[..i], skips)
        invariant fetched == old(fetched) + log
        invariant PluginsPass(old(files), catalog[..i], skips, served) == Pass(Done, files, log)
      {
        var p := catalog[i];
        var localVersion := FindLocalVersion(local, p.name);
        var skip := localVersion.Some? && p.lastVersion == localVersion.value;
        ApplyStep(local, catalog, skips, i, localVersion, skip, served, old(files), files, log);
        skips := skips + [skip];
        if skip {
          continue;
        }
        var ok := DownloadPlugin(p.name, p.lastVersion, served);
        log := log + [PluginJar(p.name, p.lastVersion)];
        if !ok {
          r := Fail(DownloadError);
          assert fetched == old(fetched) + log;
          LogSuffix(old(fetched), log);
          assert Progress(local, catalog, skips, served, old(files), Pass(r, files, log));
          return;
        }
        UpdatePlugin(p.name, p.lastVersion);
      }
      r := Done;
      assert catalog[..|catalog|] == catalog;
      LogSuffix(old(fetched), log);
      assert Progress(local, catalog, skips, served, old(files), Pass(r, files, log));
    }

    /** `update`: fetch the catalog, then run the loop over it. */
    method Update(local: map<string, string>, response: PluginsResponse, scheme: Scheme, served: set<Request>) returns (r: Outcome)
      requires Valid(scheme)
      modifies this
      ensures |fetched| >= |old(fetched)| && fetched[..|old(fetched)|] == old(fetched)
      ensures Updated(local, response, scheme, served, old(files), Pass(r, files, fetched[|old(fetched)|..]))
    {
      var info := GetPluginsInfo(response, scheme);
      if info.Err? {
        assert fetched[|old(fetched)|..] == [];
        return Fail(info.error);
      }
      r := Apply(local, info.value, served);
    }

    /** UpdatePlugins: scan the directory, then `update`. A file name without
        '-' panics before the catalog is asked for. */
    method UpdatePlugins(response: PluginsResponse, scheme: Scheme, served: set<Request>) returns (r: Outcome)
      requires Valid(scheme)
      modifies this
      ensures (exists f :: f in old(files) && '-' !in f) ==>
                r == Fail(IndexOutOfRange) && files == old(files) && fetched == old(fetched)
      ensures (forall f :: f in old(files) ==> '-' in f) ==>
                && |fetched| >= |old(fetched)| && fetched[..|old(fetched)|] == old(fetched)
                && exists local :: Scanned(old(files), local) &&
                     Updated(local, response, scheme, served, old(files), Pass(r, files, fetched[|old(fetched)|..]))
    {
      var scan := ScanPlugins(files);
      if scan.Err? {
        return Fail(scan.error);
      }
      r := Update(scan.value, response, scheme, served);
    }
  }
}

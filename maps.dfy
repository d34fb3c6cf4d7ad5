/** The map service (services/map.go): scans the maps directory, removes
    what the catalog does not want, and installs the catalog maps that are
    missing. */
module Maps {
  import opened Common
  import opened Strings
  import opened Listing
  import opened Versions
  import opened MapTree
  import opened MapCatalog

  // ---------------------------------------------------------------------
  // The catalog (GetMapsInfo)
  // ---------------------------------------------------------------------

  /** Sets the LastVersion of every map of a format to the latest of its
      versions; a map with no versions panics on the empty slice. */
  method ResolveMaps(scheme: Scheme, raw: seq<GameMap>) returns (r: Result<seq<GameMap>>)
    requires Valid(scheme)
    ensures r.Ok? <==> forall m :: m in raw ==> m.versions != []
    ensures r.Err? ==> r.error == IndexOutOfRange
    ensures r.Ok? ==> ResolvedMaps(scheme, raw, r.value)
  {
    var maps := raw;
    for j := 0 to |maps|
      invariant |maps| == |raw|
      invariant forall i :: 0 <= i < j ==> raw[i].versions != []
      invariant forall i :: j <= i < |maps| ==> maps[i] == raw[i]
      invariant forall i :: 0 <= i < j ==>
                  && maps[i] == raw[i].(lastVersion := maps[i].lastVersion)
                  && IsLatest(scheme, raw[i].versions, maps[i].lastVersion)
    {
      var last := Latest(scheme, maps[j].versions);
      if last.Err? {
        assert raw[j] in raw;
        return Err(last.error);
      }
      maps := maps[j := maps[j].(lastVersion := last.value)];
    }
    return Ok(maps);
  }

  /** ResolveMaps for every format of a minigame. */
  method ResolveFormats(scheme: Scheme, raw: seq<Format>) returns (r: Result<seq<Format>>)
    requires Valid(scheme)
    ensures r.Ok? <==> forall f :: f in raw ==> forall m :: m in f.maps ==> m.versions != []
    ensures r.Err? ==> r.error == IndexOutOfRange
    ensures r.Ok? ==> ResolvedFormats(scheme, raw, r.value)
  {
    var formats := raw;
    for j := 0 to |formats|
      invariant |formats| == |raw|
      invariant forall i :: 0 <= i < j ==> forall m :: m in raw[i].maps ==> m.versions != []
      invariant forall i :: j <= i < |formats| ==> formats[i] == raw[i]
      invariant forall i :: 0 <= i < j ==>
                  formats[i].format == raw[i].format && ResolvedMaps(scheme, raw[i].maps, formats[i].maps)
    {
      var maps := ResolveMaps(scheme, formats[j].maps);
      if maps.Err? {
        assert raw[j] in raw;
        return Err(maps.error);
      }
      formats := formats[j := formats[j].(maps := maps.value)];
    }
    return Ok(formats);
  }

  /** ResolveFormats for every minigame of the catalog. */
  method ResolveCatalog(scheme: Scheme, raw: seq<MiniGame>) returns (r: Result<seq<MiniGame>>)
    requires Valid(scheme)
    ensures r.Ok? <==> HasVersions(raw)
    ensures r.Err? ==> r.error == IndexOutOfRange
    ensures r.Ok? ==> Resolved(scheme, raw, r.value)
  {
    var minigames := raw;
    for j := 0 to |minigames|
      invariant |minigames| == |raw|
      invariant forall i :: 0 <= i < j ==> forall f :: f in raw[i].formats ==> forall m :: m in f.maps ==> m.versions != []
      invariant forall i :: j <= i < |minigames| ==> minigames[i] == raw[i]
      invariant forall i :: 0 <= i < j ==>
                  minigames[i].name == raw[i].name && ResolvedFormats(scheme, raw[i].formats, minigames[i].formats)
    {
      var formats := ResolveFormats(scheme, minigames[j].formats);
      if formats.Err? {
        assert raw[j] in raw;
        return Err(formats.error);
      }
      minigames := minigames[j := minigames[j].(formats := formats.value)];
    }
    return Ok(minigames);
  }

  /** GetMapsInfo on a decoded catalog response: a response whose success
      flag is false is a catalog error; otherwise every map gets its latest
      version, and a map with no versions panics. */
  method GetMapsInfo(response: MapsResponse, scheme: Scheme) returns (r: Result<seq<MiniGame>>)
    requires Valid(scheme)
    ensures !response.success ==> r == Err(CatalogError)
    ensures response.success ==> (r.Ok? <==> HasVersions(response.minigames))
    ensures response.success && r.Err? ==> r.error == IndexOutOfRange
    ensures r.Ok? ==> Resolved(scheme, response.minigames, r.value)
  {
    if !response.success {
      return Err(CatalogError);
    }
    r := ResolveCatalog(scheme, response.minigames);
  }

  // ---------------------------------------------------------------------
  // One whole pass (UpdateMaps)
  // ---------------------------------------------------------------------

  /** What UpdateMaps does with a resolved catalog. An empty maps directory
      gets the removals (none) and the additions, and then, falling through
      to the common tail, the removals and the additions once more. Any
      other directory is scanned: a folder name without '-' panics after
      the folders before it were stripped; otherwise the stripped tree gets
      the removals against the scan's records and then the additions. */
  ghost predicate Reconciled(t: Tree, catalog: seq<MiniGame>, served: set<Request>, p: Pass<Tree>)
  {
    if t.Keys == {} then
      var first := AddAll(Prune(t, Removals([], catalog)), Targets(catalog), served);
      if first.outcome.Fail? then p == first
      else
        var second := AddAll(Prune(first.state, Removals([], catalog)), Targets(catalog), served);
        p == Pass(second.outcome, second.state, first.fetched + second.fetched)
    else if TreeDashed(t) then
      p == AddAll(Prune(StripSome(t, AllFolders(t)), Removals(TreeRecords(t), catalog)), Targets(catalog), served)
    else
      && p.outcome == Fail(IndexOutOfRange)
      && p.fetched == []
      && exists c :: FirstDashless(AllFolders(t), c) && p.state == StripSome(t, Before(AllFolders(t), c))
  }

  /** What UpdateMaps does with a catalog response: catalog errors and maps
      with no versions end it before the directory is touched; otherwise it
      reconciles the directory with the resolved catalog. */
  ghost predicate MapsUpdated(t: Tree, response: MapsResponse, scheme: Scheme, served: set<Request>, p: Pass<Tree>)
  {
    if !response.success then p == Pass(Fail(CatalogError), t, [])
    else if !HasVersions(response.minigames) then p == Pass(Fail(IndexOutOfRange), t, [])
    else exists catalog :: Resolved(scheme, response.minigames, catalog) && Reconciled(t, catalog, served, p)
  }

  /** MapService over its maps directory, with a log of the downloads it
      asked for. */
  class MapService {
    var tree: Tree
    ghost var fetched: seq<Request>

    constructor(t: Tree)
      ensures tree == t && fetched == []
    {
      tree := t;
      fetched := [];
    }

    // -------------------------------------------------------------------
    // Disk and network primitives
    // -------------------------------------------------------------------

    /** os.RemoveAll of a directory of the tree. */
    method RemoveAll(p: Path)
      modifies this
      ensures tree == Remove(old(tree), p) && fetched == old(fetched)
    {
      tree := Remove(tree, p);
    }

    /** os.RemoveAll of a file inside a map folder. */
    method RemoveFile(x: Folder, name: string)
      requires HasFolder(tree, x)
      modifies this
      ensures tree == SetFiles(old(tree), x, FilesOf(old(tree), x) - {name}) && fetched == old(fetched)
    {
      tree := SetFiles(tree, x, FilesOf(tree, x) - {name});
    }

    /** DeleteMap: removes `<minigame>/<format>/<mapName>`. */
    method DeleteMap(minigame: string, format: string, mapName: string)
      modifies this
      ensures tree == Remove(old(tree), FolderPath(minigame, format, mapName)) && fetched == old(fetched)
    {
      RemoveAll(FolderPath(minigame, format, mapName));
    }

    /** UpdateMap: DeleteMap of the unversioned folder, then MkdirAll of
        `<mapName>-<version>` and world.rar when the world bytes are
        present, then the same for map.yml and the config bytes. */
    method UpdateMap(minigame: string, format: string, mapName: string, version: string, world: bool, config: bool)
      modifies this
      ensures tree == WriteMap(old(tree), minigame, format, mapName, version, world, config)
      ensures fetched == old(fetched)
    {
      DeleteMap(minigame, format, mapName);
      var x := Folder(minigame, format, FolderName(mapName, version));
      if world {
        tree := Put(tree, x, World);
      }
      if config {
        tree := Put(tree, x, Config);
      }
    }

    /** DownloadMapWorld: succeeds exactly when the endpoint serves it. */
    method DownloadMapWorld(minigame: string, format: string, mapName: string, version: string, served: set<Request>)
      returns (ok: bool)
      modifies this
      ensures ok <==> MapWorld(minigame, format, mapName, version) in served
      ensures fetched == old(fetched) + [MapWorld(minigame, format, mapName, version)] && tree == old(tree)
    {
      fetched := fetched + [MapWorld(minigame, format, mapName, version)];
      ok := MapWorld(minigame, format, mapName, version) in served;
    }

    /** DownloadMapConfig: succeeds exactly when the endpoint serves it. */
    method DownloadMapConfig(minigame: string, format: string, mapName: string, version: string, served: set<Request>)
      returns (ok: bool)
      modifies this
      ensures ok <==> MapConfig(minigame, format, mapName, version) in served
      ensures fetched == old(fetched) + [MapConfig(minigame, format, mapName, version)] && tree == old(tree)
    {
      fetched := fetched + [MapConfig(minigame, format, mapName, version)];
      ok := MapConfig(minigame, format, mapName, version) in served;
    }

    /** os.Stat of a map folder: whether it exists. */
    method Stat(x: Folder) returns (present: bool)
      ensures present == HasFolder(tree, x)
    {
      present := HasFolder(tree, x);
    }

    // -------------------------------------------------------------------
    // The scan (UpdateMaps)
    // -------------------------------------------------------------------

    /** The loop over one map folder's files: world.rar and map.yml are
        noted, every other entry is removed. */
    method ScanFolder(x: Folder) returns (hasWorld: bool, hasConfig: bool)
      requires HasFolder(tree, x)
      modifies this
      ensures tree == StripSome(old(tree), {x}) && fetched == old(fetched)
      ensures hasWorld == (World in FilesOf(old(tree), x))
      ensures hasConfig == (Config in FilesOf(old(tree), x))
    {
      ghost var t0 := tree;
      ghost var files0 := FilesOf(tree, x);
      var files := ReadDir(FilesOf(tree, x));
      hasWorld, hasConfig := false, false;
      ghost var left := files0;
      FolderScanStart(files0, files);
      SetFilesSame(t0, x);
      for i := 0 to |files|
        invariant left == files0 - Unrecognised(files[..i])
        invariant tree == SetFiles(t0, x, left)
        invariant hasWorld == (World in files[..i]) && hasConfig == (Config in files[..i])
        invariant fetched == old(fetched)
      {
        FolderScanStep(files0, files, i);
        if files[i] == World {
          hasWorld := true;
        } else if files[i] == Config {
          hasConfig := true;
        } else {
          SetFilesTwice(t0, x, left, left - {files[i]});
          RemoveFile(x, files[i]);
          left := left - {files[i]};
        }
      }
      FolderScanDone(t0, x, files);
    }

    /** The body of the loop over one format directory: the folder name
        is split on '-', a name without one indexes field 1 out of range
        before the files are read, and otherwise the folder's files are
        scanned and its record made. */
    method ScanMapFolder(x: Folder) returns (r: Option<GameMap>)
      requires HasFolder(tree, x)
      modifies this
      ensures fetched == old(fetched)
      ensures r.None? <==> '-' !in x.name
      ensures r.None? ==> tree == old(tree)
      ensures r.Some? ==> '-' in x.name && r.value == Record(x.name, FilesOf(old(tree), x)) && tree == StripSome(old(tree), {x})
    {
      var fields := Split(x.name, '-');
      if |fields| < 2 {
        return None;
      }
      var hasWorld, hasConfig := ScanFolder(x);
      r := Some(GameMap(fields[0], [], fields[1], hasWorld, hasConfig));
    }

    /** The loop over one format directory: each folder yields its record,
        and a panic in one ends the scan. */
    method ScanFormat(minigame: string, format: string) returns (r: Result<seq<GameMap>>)
      requires minigame in tree && format in tree[minigame]
      modifies this
      ensures fetched == old(fetched)
      ensures r.Ok? <==> Dashed(old(tree)[minigame][format])
      ensures r.Ok? ==>
                && r.value == FormatRecords(old(tree)[minigame][format])
                && tree == StripSome(old(tree), FormatFolders(old(tree), minigame, format))
      ensures r.Err? ==>
                && r.error == IndexOutOfRange
                && exists c :: FirstDashless(FormatFolders(old(tree), minigame, format), c) &&
                     tree == StripSome(old(tree), Before(FormatFolders(old(tree), minigame, format), c))
    {
      ghost var t0 := tree;
      var names := ReadDir(tree[minigame][format].Keys);
      var maps := [];
      FormatScanStart(t0, minigame, format);
      for i := 0 to |names|
        invariant tree == StripSome(t0, FoldersNamed(minigame, format, names[..i]))
        invariant fetched == old(fetched)
        invariant MapsScanned(t0[minigame][format], names[..i], maps)
      {
        FormatScanAt(t0, minigame, format, names, i);
        var rec := ScanMapFolder(Folder(minigame, format, names[i]));
        if rec.None? {
          FormatLessIff(t0, minigame, format, names, i);
          FormatBefore(t0, minigame, format, names, i, maps);
          return Err(IndexOutOfRange);
        }
        FormatScanNext(t0, minigame, format, names, i);
        FormatRecordNext(t0, minigame, format, names, i, maps);
        maps := maps + [rec.value];
      }
      FormatScanDone(t0, minigame, format, names, maps);
      r := Ok(maps);
    }

    /** The loop over one minigame directory: each format directory is
        scanned in turn, and a panic in one ends the scan. */
    method ScanMiniGame(minigame: string) returns (r: Result<seq<Format>>)
      requires minigame in tree
      modifies this
      ensures fetched == old(fetched)
      ensures r.Ok? <==> forall f :: f in old(tree)[minigame] ==> Dashed(old(tree)[minigame][f])
      ensures r.Ok? ==>
                && r.value == MiniGameRecords(old(tree)[minigame])
                && tree == StripSome(old(tree), MiniGameFolders(old(tree), minigame))
      ensures r.Err? ==>
                && r.error == IndexOutOfRange
                && exists c :: FirstDashless(MiniGameFolders(old(tree), minigame), c) &&
                     tree == StripSome(old(tree), Before(MiniGameFolders(old(tree), minigame), c))
    {
      ghost var t0 := tree;
      ghost var gm := tree[minigame];
      var names := ReadDir(tree[minigame].Keys);
      var formats := [];
      ghost var done: set<Folder> := {};
      StripNothing(t0);
      for i := 0 to |names|
        invariant done == FormatsNamed(t0, minigame, names[..i])
        invariant tree == StripSome(t0, done)
        invariant fetched == old(fetched)
        invariant FormatsScanned(gm, names[..i], formats)
      {
        MiniGameScanFresh(t0, minigame, names, i);
        StripElsewhere(t0, done, minigame, names[i]);
        ghost var cur := tree;
        var res := ScanFormat(minigame, names[i]);
        if res.Err? {
          ghost var c :| FirstDashless(FormatFolders(cur, minigame, names[i]), c) &&
                         tree == StripSome(cur, Before(FormatFolders(cur, minigame, names[i]), c));
          MiniGameBefore(t0, minigame, names, i, formats, c);
          StripTwice(t0, done, Before(FormatFolders(t0, minigame, names[i]), c));
          r := Err(IndexOutOfRange);
          return;
        }
        StripTwice(t0, done, FormatFolders(t0, minigame, names[i]));
        MiniGameScanStep(t0, minigame, names, i, formats);
        formats := formats + [Format(names[i], res.value)];
        done := done + FormatFolders(t0, minigame, names[i]);
      }
      MiniGameScanDone(t0, minigame, names, formats);
      r := Ok(formats);
    }

    /** The outer loop of UpdateMaps over the listing of the maps
        directory: each minigame directory is scanned in turn, and a panic
        in one ends the scan. */
    method ScanTree(names: seq<string>) returns (r: Result<seq<MiniGame>>)
      requires names == SortedKeys(tree.Keys)
      modifies this
      ensures fetched == old(fetched)
      ensures r.Ok? <==> TreeDashed(old(tree))
      ensures r.Ok? ==>
                && r.value == TreeRecords(old(tree))
                && tree == StripSome(old(tree), AllFolders(old(tree)))
      ensures r.Err? ==>
                && r.error == IndexOutOfRange
                && exists c :: FirstDashless(AllFolders(old(tree)), c) &&
                     tree == StripSome(old(tree), Before(AllFolders(old(tree)), c))
    {
      ghost var t0 := tree;
      var minigames := [];
      ghost var done: set<Folder> := {};
      StripNothing(t0);
      for i := 0 to |names|
        invariant done == MiniGamesNamed(t0, names[..i])
        invariant tree == StripSome(t0, done)
        invariant fetched == old(fetched)
        invariant TreeScanned(t0, names[..i], minigames)
      {
        TreeScanFresh(t0, names, i);
        StripElsewhereMiniGame(t0, done, names[i]);
        ghost var cur := tree;
        var res := ScanMiniGame(names[i]);
        if res.Err? {
          ghost var c :| FirstDashless(MiniGameFolders(cur, names[i]), c) &&
                         tree == StripSome(cur, Before(MiniGameFolders(cur, names[i]), c));
          TreeBefore(t0, names, i, minigames, c);
          StripTwice(t0, done, Before(MiniGameFolders(t0, names[i]), c));
          r := Err(IndexOutOfRange);
          return;
        }
        StripTwice(t0, done, MiniGameFolders(t0, names[i]));
        TreeScanStep(t0, names, i, minigames);
        minigames := minigames + [MiniGame(names[i], res.value)];
        done := done + MiniGameFolders(t0, names[i]);
      }
      TreeScanDone(t0, names, minigames);
      r := Ok(minigames);
    }

    // -------------------------------------------------------------------
    // The downloads (addNewMaps)
    // -------------------------------------------------------------------

    /** addNewMaps: for every catalog map, in catalog order, whose folder
        `<name>-<LastVersion>` does not exist, the world and then the config
        are downloaded and UpdateMap writes both; a failed download returns
        at once. */
    method AddNewMaps(catalog: seq<MiniGame>, served: set<Request>) returns (r: Outcome)
      modifies this
      ensures var p := AddAll(old(tree), Targets(catalog), served);
        r == p.outcome && tree == p.state && fetched == old(fetched) + p.fetched
    {
      ghost var t0 := tree;
      TargetsStart(t0, served);
      for i := 0 to |catalog|
        invariant var p := AddAll(t0, Targets(catalog[..i]), served);
          p.outcome == Done && tree == p.state && fetched == old(fetched) + p.fetched
      {
        TargetsPass(t0, catalog, i, served);
        var res := AddMiniGameMaps(catalog[i].name, catalog[i].formats, served);
        LogStep(old(fetched), AddAll(t0, Targets(catalog[..i]), served).fetched,
                AddAll(AddAll(t0, Targets(catalog[..i]), served).state, FormatTargets(catalog[i].name, catalog[i].formats), served).fetched);
        if res.Fail? {
          TargetsStop(t0, catalog, i, served);
          return res;
        }
      }
      TargetsDone(catalog);
      r := Done;
    }

    /** The loop of addNewMaps over one catalog minigame's formats. */
    method AddMiniGameMaps(minigame: string, formats: seq<Format>, served: set<Request>) returns (r: Outcome)
      modifies this
      ensures var p := AddAll(old(tree), FormatTargets(minigame, formats), served);
        r == p.outcome && tree == p.state && fetched == old(fetched) + p.fetched
    {
      ghost var t0 := tree;
      FormatTargetsStart(t0, minigame, formats, served);
      for j := 0 to |formats|
        invariant var p := AddAll(t0, FormatTargets(minigame, formats[..j]), served);
          p.outcome == Done && tree == p.state && fetched == old(fetched) + p.fetched
      {
        FormatTargetsPass(t0, minigame, formats, j, served);
        var res := AddFormatMaps(minigame, formats[j].format, formats[j].maps, served);
        LogStep(old(fetched), AddAll(t0, FormatTargets(minigame, formats[..j]), served).fetched,
                AddAll(AddAll(t0, FormatTargets(minigame, formats[..j]), served).state,
                       MapTargets(minigame, formats[j].format, formats[j].maps), served).fetched);
        if res.Fail? {
          FormatTargetsStop(t0, minigame, formats, j, served);
          return res;
        }
      }
      FormatTargetsDone(formats);
      r := Done;
    }

    /** The loop of addNewMaps over one catalog format's maps. */
    method AddFormatMaps(minigame: string, format: string, maps: seq<GameMap>, served: set<Request>) returns (r: Outcome)
      modifies this
      ensures var p := AddAll(old(tree), MapTargets(minigame, format, maps), served);
        r == p.outcome && tree == p.state && fetched == old(fetched) + p.fetched
    {
      ghost var t0 := tree;
      MapTargetsStart(t0, minigame, format, maps, served);
      for k := 0 to |maps|
        invariant var p := AddAll(t0, MapTargets(minigame, format, maps[..k]), served);
          p.outcome == Done && tree == p.state && fetched == old(fetched) + p.fetched
      {
        MapTargetsPass(t0, minigame, format, maps, k, served);
        var res := AddMapIfMissing(minigame, format, maps[k], served);
        LogStep(old(fetched), AddAll(t0, MapTargets(minigame, format, maps[..k]), served).fetched,
                AddMap(AddAll(t0, MapTargets(minigame, format, maps[..k]), served).state,
                       Target(minigame, format, maps[k]), served).fetched);
        if res.Fail? {
          MapTargetsStop(t0, minigame, format, maps, k, served);
          return res;
        }
      }
      MapTargetsDone(maps);
      r := Done;
    }

    /** The body of addNewMaps for one catalog map: os.Stat of
        `<name>-<LastVersion>`, and when it does not exist the two
        downloads, each returning on failure, then UpdateMap with both. */
    method AddMapIfMissing(minigame: string, format: string, m: GameMap, served: set<Request>) returns (r: Outcome)
      modifies this
      ensures var q := AddMap(old(tree), Target(minigame, format, m), served);
        r == q.outcome && tree == q.state && fetched == old(fetched) + q.fetched
    {
      var present := Stat(Folder(minigame, format, FolderName(m.name, m.lastVersion)));
      if present {
        return Done;
      }
      var ok := DownloadMapWorld(minigame, format, m.name, m.lastVersion, served);
      if !ok {
        return Fail(DownloadError);
      }
      ok := DownloadMapConfig(minigame, format, m.name, m.lastVersion, served);
      if !ok {
        return Fail(DownloadError);
      }
      UpdateMap(minigame, format, m.name, m.lastVersion, true, true);
      r := Done;
    }

    // -------------------------------------------------------------------
    // The removals (deleteOldAndWrongMaps)
    // -------------------------------------------------------------------

    /** The loop over a catalog format's maps for one local record: each
        catalog map of the same name that differs from it removes the
        folder `<name>-<LastVersion>`, and so does finding none of that
        name. */
    method DeleteMapIfStale(minigame: string, format: string, lm: GameMap, cmaps: seq<GameMap>)
      modifies this
      ensures tree == Prune(old(tree), MapRemovals(minigame, format, lm, cmaps)) && fetched == old(fetched)
    {
      ghost var t0 := tree;
      var path := FolderPath(minigame, format, FolderName(lm.name, lm.lastVersion));
      var hasMap := false;
      ghost var removed: set<Path> := {};
      PruneNothing(t0);
      for j := 0 to |cmaps|
        invariant hasMap <==> exists k :: 0 <= k < j && cmaps[k].name == lm.name
        invariant removed == if exists k :: 0 <= k < j && Differs(lm, cmaps[k]) then {path} else {}
        invariant tree == Prune(t0, removed) && fetched == old(fetched)
      {
        if cmaps[j].name != lm.name {
          continue;
        }
        hasMap := true;
        if cmaps[j].lastVersion != lm.lastVersion || !lm.hasWorld || !lm.hasConfig {
          RemovePruned(t0, removed, path);
          RemoveAll(path);
          assert removed + {path} == {path};
          removed := {path};
        }
      }
      StaleIff(lm, cmaps);
      if !hasMap {
        RemovePruned(t0, removed, path);
        RemoveAll(path);
        assert removed + {path} == {path};
        removed := {path};
      }
    }

    /** The loop over a local format's records against one catalog format. */
    method DeleteMaps(minigame: string, format: string, lmaps: seq<GameMap>, cmaps: seq<GameMap>)
      modifies this
      ensures tree == Prune(old(tree), FolderRemovals(minigame, format, lmaps, cmaps)) && fetched == old(fetched)
    {
      ghost var t0 := tree;
      PruneNothing(t0);
      for i := 0 to |lmaps|
        invariant tree == Prune(t0, FolderRemovals(minigame, format, lmaps[..i], cmaps)) && fetched == old(fetched)
      {
        assert lmaps[..i + 1][..i] == lmaps[..i];
        PruneTwice(t0, FolderRemovals(minigame, format, lmaps[..i], cmaps), MapRemovals(minigame, format, lmaps[i], cmaps));
        DeleteMapIfStale(minigame, format, lmaps[i], cmaps);
      }
      assert lmaps[..|lmaps|] == lmaps;
    }

    /** The loop over a catalog minigame's formats for one local format:
        each catalog format of the same name checks the local records, and
        finding none removes the whole format directory. */
    method DeleteFormat(minigame: string, lf: Format, cformats: seq<Format>)
      modifies this
      ensures tree == Prune(old(tree), LocalFormatRemovals(minigame, lf, cformats)) && fetched == old(fetched)
    {
      ghost var t0 := tree;
      var hasFormat := false;
      PruneNothing(t0);
      for j := 0 to |cformats|
        invariant hasFormat <==> exists k :: 0 <= k < j && cformats[k].format == lf.format
        invariant tree == Prune(t0, MatchedFormatRemovals(minigame, lf, cformats[..j])) && fetched == old(fetched)
      {
        assert cformats[..j + 1][..j] == cformats[..j];
        if cformats[j].format != lf.format {
          assert MatchedFormatRemovals(minigame, lf, cformats[..j + 1]) == MatchedFormatRemovals(minigame, lf, cformats[..j]);
          continue;
        }
        assert MatchedFormatRemovals(minigame, lf, cformats[..j + 1]) ==
                 MatchedFormatRemovals(minigame, lf, cformats[..j]) + FolderRemovals(minigame, lf.format, lf.maps, cformats[j].maps);
        hasFormat := true;
        PruneTwice(t0, MatchedFormatRemovals(minigame, lf, cformats[..j]), FolderRemovals(minigame, lf.format, lf.maps, cformats[j].maps));
        DeleteMaps(minigame, lf.format, lf.maps, cformats[j].maps);
      }
      assert cformats[..|cformats|] == cformats;
      ghost var matched := MatchedFormatRemovals(minigame, lf, cformats);
      if !hasFormat {
        RemovePruned(t0, matched, FormatPath(minigame, lf.format));
        RemoveAll(FormatPath(minigame, lf.format));
        assert matched + {FormatPath(minigame, lf.format)} == LocalFormatRemovals(minigame, lf, cformats);
      } else {
        assert matched == LocalFormatRemovals(minigame, lf, cformats);
      }
    }

    /** The loop over a local minigame's formats against one catalog
        minigame. */
    method DeleteFormats(minigame: string, lformats: seq<Format>, cformats: seq<Format>)
      modifies this
      ensures tree == Prune(old(tree), FormatRemovals(minigame, lformats, cformats)) && fetched == old(fetched)
    {
      ghost var t0 := tree;
      PruneNothing(t0);
      for i := 0 to |lformats|
        invariant tree == Prune(t0, FormatRemovals(minigame, lformats[..i], cformats)) && fetched == old(fetched)
      {
        assert lformats[..i + 1][..i] == lformats[..i];
        PruneTwice(t0, FormatRemovals(minigame, lformats[..i], cformats), LocalFormatRemovals(minigame, lformats[i], cformats));
        DeleteFormat(minigame, lformats[i], cformats);
      }
      assert lformats[..|lformats|] == lformats;
    }

    /** The loop over the catalog for one local minigame: each catalog
        minigame of the same name checks the local formats, and finding
        none removes the whole minigame directory. */
    method DeleteMiniGame(lg: MiniGame, catalog: seq<MiniGame>)
      modifies this
      ensures tree == Prune(old(tree), LocalMiniGameRemovals(lg, catalog)) && fetched == old(fetched)
    {
      ghost var t0 := tree;
      var hasMinigame := false;
      PruneNothing(t0);
      for j := 0 to |catalog|
        invariant hasMinigame <==> exists k :: 0 <= k < j && catalog[k].name == lg.name
        invariant tree == Prune(t0, MatchedMiniGameRemovals(lg, catalog[..j])) && fetched == old(fetched)
      {
        assert catalog[..j + 1][..j] == catalog[..j];
        if catalog[j].name != lg.name {
          assert MatchedMiniGameRemovals(lg, catalog[..j + 1]) == MatchedMiniGameRemovals(lg, catalog[..j]);
          continue;
        }
        assert MatchedMiniGameRemovals(lg, catalog[..j + 1]) ==
                 MatchedMiniGameRemovals(lg, catalog[..j]) + FormatRemovals(lg.name, lg.formats, catalog[j].formats);
        hasMinigame := true;
        PruneTwice(t0, MatchedMiniGameRemovals(lg, catalog[..j]), FormatRemovals(lg.name, lg.formats, catalog[j].formats));
        DeleteFormats(lg.name, lg.formats, catalog[j].formats);
      }
      assert catalog[..|catalog|] == catalog;
      ghost var matched := MatchedMiniGameRemovals(lg, catalog);
      if !hasMinigame {
        RemovePruned(t0, matched, MiniGamePath(lg.name));
        RemoveAll(MiniGamePath(lg.name));
        assert matched + {MiniGamePath(lg.name)} == LocalMiniGameRemovals(lg, catalog);
      } else {
        assert matched == LocalMiniGameRemovals(lg, catalog);
      }
    }

    /** deleteOldAndWrongMaps: the loop over the scanned local minigames. */
    method DeleteOldAndWrongMaps(local: seq<MiniGame>, catalog: seq<MiniGame>)
      modifies this
      ensures tree == Prune(old(tree), Removals(local, catalog)) && fetched == old(fetched)
    {
      ghost var t0 := tree;
      PruneNothing(t0);
      for i := 0 to |local|
        invariant tree == Prune(t0, Removals(local[..i], catalog)) && fetched == old(fetched)
      {
        assert local[..i + 1][..i] == local[..i];
        PruneTwice(t0, Removals(local[..i], catalog), LocalMiniGameRemovals(local[i], catalog));
        DeleteMiniGame(local[i], catalog);
      }
      assert local[..|local|] == local;
    }

    /** UpdateMaps: the catalog first, then the listing of the maps
        directory, the scan, the removals and the additions. */
    method UpdateMaps(response: MapsResponse, scheme: Scheme, served: set<Request>) returns (r: Outcome)
      requires Valid(scheme)
      modifies this
      ensures |fetched| >= |old(fetched)| && fetched[..|old(fetched)|] == old(fetched)
      ensures MapsUpdated(old(tree), response, scheme, served, Pass(r, tree, fetched[|old(fetched)|..]))
    {
      ghost var t0 := tree;
      var info := GetMapsInfo(response, scheme);
      if info.Err? {
        LogSuffix(old(fetched), []);
        assert old(fetched) + [] == old(fetched);
        return Fail(info.error);
      }
      var catalog := info.value;
      var minigames := ReadDir(tree.Keys);
      var local: seq<MiniGame> := [];
      ghost var first: Pass<Tree> := Pass(Done, t0, []);
      if |minigames| == 0 {
        DeleteOldAndWrongMaps([], catalog);
        r := AddNewMaps(catalog, served);
        first := AddAll(Prune(t0, Removals([], catalog)), Targets(catalog), served);
        if r.Fail? {
          LogSuffix(old(fetched), first.fetched);
          EmptyFails(t0, catalog, served, first);
          UpdatedFrom(t0, response, scheme, served, catalog, first);
          return;
        }
      }
      if |minigames| > 0 {
        var scan := ScanTree(minigames);
        if scan.Err? {
          LogSuffix(old(fetched), []);
          assert old(fetched) + [] == old(fetched);
          ScanFails(t0, catalog, served, tree);
          UpdatedFrom(t0, response, scheme, served, catalog, Pass(Fail(IndexOutOfRange), tree, []));
          return Fail(scan.error);
        }
        local := scan.value;
      }
      ghost var u := tree;
      ghost var before := fetched;
      DeleteOldAndWrongMaps(local, catalog);
      r := AddNewMaps(catalog, served);
      ghost var second := AddAll(Prune(u, Removals(local, catalog)), Targets(catalog), served);
      assert before == old(fetched) + first.fetched;
      LogStep(old(fetched), first.fetched, second.fetched);
      LogSuffix(old(fetched), first.fetched + second.fetched);
      assert r == second.outcome && tree == second.state;
      if |minigames| == 0 {
        EmptyTwice(t0, catalog, served, first, second);
      } else {
        ScanPasses(t0, catalog, served, second);
      }
      UpdatedFrom(t0, response, scheme, served, catalog, Pass(r, tree, first.fetched + second.fetched));
    }
  }

  /** The folders of a format directory with the given names. */
  function FoldersNamed(minigame: string, format: string, names: seq<string>): set<Folder>
  {
    set k | k in names :: Folder(minigame, format, k)
  }

  lemma FoldersNamedSnoc(minigame: string, format: string, names: seq<string>, i: int)
    requires 0 <= i < |names|
    ensures FoldersNamed(minigame, format, names[..i + 1]) ==
              FoldersNamed(minigame, format, names[..i]) + {Folder(minigame, format, names[i])}
  {
    assert names[..i + 1] == names[..i] + [names[i]];
  }

  lemma FormatScanStart(t: Tree, minigame: string, format: string)
    ensures StripSome(t, FoldersNamed(minigame, format, [])) == t
  {
    assert FoldersNamed(minigame, format, []) == {};
    StripNothing(t);
  }

  /** The folder the scan reaches has not been scanned yet, so it holds its
      original files. */
  lemma FormatScanAt(t: Tree, minigame: string, format: string, names: seq<string>, i: int)
    requires minigame in t && format in t[minigame]
    requires names == SortedKeys(t[minigame][format].Keys) && 0 <= i < |names|
    ensures names[i] in t[minigame][format]
    ensures var x := Folder(minigame, format, names[i]); var u := StripSome(t, FoldersNamed(minigame, format, names[..i]));
      HasFolder(u, x) && FilesOf(u, x) == FilesOf(t, x)
  {
    var x := Folder(minigame, format, names[i]);
    SortedPrefix(names, i);
    LessIrreflexive(names[i]);
    assert x !in FoldersNamed(minigame, format, names[..i]);
    StripSomeFolder(t, FoldersNamed(minigame, format, names[..i]), x);
  }

  /** One more folder scanned. */
  lemma FormatScanNext(t: Tree, minigame: string, format: string, names: seq<string>, i: int)
    requires 0 <= i < |names|
    ensures var x := Folder(minigame, format, names[i]);
      StripSome(StripSome(t, FoldersNamed(minigame, format, names[..i])), {x}) ==
        StripSome(t, FoldersNamed(minigame, format, names[..i + 1]))
  {
    var x := Folder(minigame, format, names[i]);
    StripTwice(t, FoldersNamed(minigame, format, names[..i]), {x});
    FoldersNamedSnoc(minigame, format, names, i);
  }

  /** The records of the folders of a listing, each name dashed. */
  ghost predicate MapsScanned(fm: FormatDir, listing: seq<string>, maps: seq<GameMap>)
  {
    && |maps| == |listing|
    && forall j :: 0 <= j < |listing| ==>
         && listing[j] in fm
         && '-' in listing[j]
         && maps[j] == Record(listing[j], fm[listing[j]])
  }

  /** One more folder recorded. */
  lemma FormatRecordNext(t: Tree, minigame: string, format: string, names: seq<string>, i: int, maps: seq<GameMap>)
    requires minigame in t && format in t[minigame]
    requires 0 <= i < |names| && names[i] in t[minigame][format]
    requires '-' in names[i]
    requires MapsScanned(t[minigame][format], names[..i], maps)
    ensures MapsScanned(t[minigame][format], names[..i + 1],
                        maps + [Record(names[i], FilesOf(t, Folder(minigame, format, names[i])))])
  {
    var fm := t[minigame][format];
    var ms := maps + [Record(names[i], fm[names[i]])];
    forall j | 0 <= j < i + 1
      ensures names[..i + 1][j] in fm && '-' in names[..i + 1][j]
      ensures ms[j] == Record(names[..i + 1][j], fm[names[..i + 1][j]])
    {
      if j < i {
        assert names[..i + 1][j] == names[..i][j];
      }
    }
  }

  /** After the whole listing, every folder is scanned and recorded. */
  lemma FormatScanDone(t: Tree, minigame: string, format: string, names: seq<string>, maps: seq<GameMap>)
    requires minigame in t && format in t[minigame]
    requires names == SortedKeys(t[minigame][format].Keys)
    requires MapsScanned(t[minigame][format], names[..|names|], maps)
    ensures names[..|names|] == names
    ensures Dashed(t[minigame][format])
    ensures maps == FormatRecords(t[minigame][format])
    ensures FoldersNamed(minigame, format, names) == FormatFolders(t, minigame, format)
  {
    assert names[..|names|] == names;
    var fm := t[minigame][format];
    forall k | k in fm
      ensures '-' in k
    {
      var j :| 0 <= j < |names| && names[j] == k;
    }
  }

  lemma LogStep(log0: seq<Request>, added: seq<Request>, more: seq<Request>)
    ensures log0 + added + more == log0 + (added + more)
  {
  }

  /** Before the first map of a format, the pass has visited nothing. */
  lemma MapTargetsStart(t: Tree, minigame: string, format: string, maps: seq<GameMap>, served: set<Request>)
    ensures AddAll(t, MapTargets(minigame, format, maps[..0]), served) == Pass(Done, t, [])
  {
    assert MapTargets(minigame, format, maps[..0]) == [];
  }

  /** The pass over the first k + 1 maps of a format, when the pass over
      the first k left nothing failed: one AddMap more. */
  lemma MapTargetsPass(t: Tree, minigame: string, format: string, maps: seq<GameMap>, k: int, served: set<Request>)
    requires 0 <= k < |maps|
    requires AddAll(t, MapTargets(minigame, format, maps[..k]), served).outcome == Done
    ensures var p := AddAll(t, MapTargets(minigame, format, maps[..k]), served);
      var q := AddMap(p.state, Target(minigame, format, maps[k]), served);
      AddAll(t, MapTargets(minigame, format, maps[..k + 1]), served) == Pass(q.outcome, q.state, p.fetched + q.fetched)
  {
    MapTargetsSnoc(minigame, format, maps, k);
    AddAllSnoc(t, MapTargets(minigame, format, maps[..k]), Target(minigame, format, maps[k]), served);
  }

  /** A pass that fails at the k-th map of a format leaves the later maps
      of the format unvisited. */
  lemma MapTargetsStop(t: Tree, minigame: string, format: string, maps: seq<GameMap>, k: int, served: set<Request>)
    requires 0 <= k < |maps|
    requires AddAll(t, MapTargets(minigame, format, maps[..k + 1]), served).outcome.Fail?
    ensures AddAll(t, MapTargets(minigame, format, maps), served) ==
              AddAll(t, MapTargets(minigame, format, maps[..k + 1]), served)
  {
    var rest := MapTargetsAfter(minigame, format, maps, k + 1);
    AddAllStopsAt(t, MapTargets(minigame, format, maps[..k + 1]), rest, MapTargets(minigame, format, maps), served);
  }

  /** The targets of a format's maps begin with those of its first m. */
  lemma MapTargetsAfter(minigame: string, format: string, maps: seq<GameMap>, m: int) returns (rest: seq<Target>)
    requires 0 <= m <= |maps|
    ensures MapTargets(minigame, format, maps) == MapTargets(minigame, format, maps[..m]) + rest
  {
    rest := MapTargets(minigame, format, maps[m..]);
    assert maps == maps[..m] + maps[m..];
  }

  lemma MapTargetsDone(maps: seq<GameMap>)
    ensures maps[..|maps|] == maps
  {
  }

  /** Before the first format of a minigame, the pass has visited nothing. */
  lemma FormatTargetsStart(t: Tree, minigame: string, formats: seq<Format>, served: set<Request>)
    ensures AddAll(t, FormatTargets(minigame, formats[..0]), served) == Pass(Done, t, [])
  {
    assert formats[..0] == [];
  }

  /** The pass over the first j + 1 formats of a minigame, when the pass
      over the first j left nothing failed: the pass over the maps of the
      j-th format from there. */
  lemma FormatTargetsPass(t: Tree, minigame: string, formats: seq<Format>, j: int, served: set<Request>)
    requires 0 <= j < |formats|
    requires AddAll(t, FormatTargets(minigame, formats[..j]), served).outcome == Done
    ensures var p := AddAll(t, FormatTargets(minigame, formats[..j]), served);
      var q := AddAll(p.state, MapTargets(minigame, formats[j].format, formats[j].maps), served);
      AddAll(t, FormatTargets(minigame, formats[..j + 1]), served) == Pass(q.outcome, q.state, p.fetched + q.fetched)
  {
    FormatTargetsSnoc(minigame, formats, j);
    AddAllAppend(t, FormatTargets(minigame, formats[..j]), MapTargets(minigame, formats[j].format, formats[j].maps), served);
  }

  /** The targets of the first j + 1 formats of a minigame. */
  lemma FormatTargetsSnoc(minigame: string, formats: seq<Format>, j: int)
    requires 0 <= j < |formats|
    ensures FormatTargets(minigame, formats[..j + 1]) ==
              FormatTargets(minigame, formats[..j]) + MapTargets(minigame, formats[j].format, formats[j].maps)
  {
    assert formats[..j + 1][..j] == formats[..j];
  }

  /** A pass that fails in the j-th format of a minigame leaves the later
      formats unvisited. */
  lemma FormatTargetsStop(t: Tree, minigame: string, formats: seq<Format>, j: int, served: set<Request>)
    requires 0 <= j < |formats|
    requires AddAll(t, FormatTargets(minigame, formats[..j + 1]), served).outcome.Fail?
    ensures AddAll(t, FormatTargets(minigame, formats), served) ==
              AddAll(t, FormatTargets(minigame, formats[..j + 1]), served)
  {
    var rest := FormatTargetsPrefix(minigame, formats, j + 1);
    AddAllStopsAt(t, FormatTargets(minigame, formats[..j + 1]), rest, FormatTargets(minigame, formats), served);
  }

  lemma FormatTargetsDone(formats: seq<Format>)
    ensures formats[..|formats|] == formats
  {
  }

  /** Before the first catalog minigame, the pass has visited nothing. */
  lemma TargetsStart(t: Tree, served: set<Request>)
    ensures AddAll(t, Targets([]), served) == Pass(Done, t, [])
  {
  }

  /** The pass over the first i + 1 catalog minigames, when the pass over
      the first i left nothing failed: the pass over the i-th minigame's
      formats from there. */
  lemma TargetsPass(t: Tree, catalog: seq<MiniGame>, i: int, served: set<Request>)
    requires 0 <= i < |catalog|
    requires AddAll(t, Targets(catalog[..i]), served).outcome == Done
    ensures var p := AddAll(t, Targets(catalog[..i]), served);
      var q := AddAll(p.state, FormatTargets(catalog[i].name, catalog[i].formats), served);
      AddAll(t, Targets(catalog[..i + 1]), served) == Pass(q.outcome, q.state, p.fetched + q.fetched)
  {
    TargetsSnoc(catalog, i);
    AddAllAppend(t, Targets(catalog[..i]), FormatTargets(catalog[i].name, catalog[i].formats), served);
  }

  /** The targets of the first i + 1 catalog minigames. */
  lemma TargetsSnoc(catalog: seq<MiniGame>, i: int)
    requires 0 <= i < |catalog|
    ensures Targets(catalog[..i + 1]) == Targets(catalog[..i]) + FormatTargets(catalog[i].name, catalog[i].formats)
  {
    assert catalog[..i + 1][..i] == catalog[..i];
  }

  /** A pass that fails in the i-th minigame leaves the later minigames
      unvisited. */
  lemma TargetsStop(t: Tree, catalog: seq<MiniGame>, i: int, served: set<Request>)
    requires 0 <= i < |catalog|
    requires AddAll(t, Targets(catalog[..i + 1]), served).outcome.Fail?
    ensures AddAll(t, Targets(catalog), served) == AddAll(t, Targets(catalog[..i + 1]), served)
  {
    var rest := TargetsPrefix(catalog, i + 1);
    AddAllStopsAt(t, Targets(catalog[..i + 1]), rest, Targets(catalog), served);
  }

  lemma TargetsDone(catalog: seq<MiniGame>)
    ensures catalog[..|catalog|] == catalog
  {
  }

  /** A catalog map of the record's name that it does not match. */
  predicate Differs(lm: GameMap, cm: GameMap)
  {
    cm.name == lm.name && (cm.lastVersion != lm.lastVersion || !lm.hasWorld || !lm.hasConfig)
  }

  /** Stale, by position in the catalog maps. */
  lemma StaleIff(lm: GameMap, cmaps: seq<GameMap>)
    ensures Stale(lm, cmaps) <==>
              (forall k :: 0 <= k < |cmaps| ==> cmaps[k].name != lm.name) ||
              (exists k :: 0 <= k < |cmaps| && Differs(lm, cmaps[k]))
  {
    if cm :| cm in cmaps && Differs(lm, cm) {
      var k :| 0 <= k < |cmaps| && cmaps[k] == cm;
    }
  }

  /** The names of a listing of a folder other than the world and config
      files: the ones the scan removes. */
  function Unrecognised(listing: seq<string>): set<string>
  {
    set y | y in listing && y != World && y != Config
  }

  lemma FolderScanStart(files: Files, listing: seq<string>)
    ensures files - Unrecognised(listing[..0]) == files
    ensures World !in listing[..0] && Config !in listing[..0]
  {
    assert Unrecognised(listing[..0]) == {};
  }

  /** One more name of the folder's listing: removed unless it is the world
      or the config file, and recorded when it is one of them. */
  lemma FolderScanStep(files: Files, listing: seq<string>, i: int)
    requires 0 <= i < |listing|
    ensures files - Unrecognised(listing[..i + 1]) ==
              if listing[i] == World || listing[i] == Config then files - Unrecognised(listing[..i])
              else files - Unrecognised(listing[..i]) - {listing[i]}
    ensures (World in listing[..i + 1]) == (World in listing[..i] || listing[i] == World)
    ensures (Config in listing[..i + 1]) == (Config in listing[..i] || listing[i] == Config)
  {
    assert listing[..i + 1] == listing[..i] + [listing[i]];
  }

  /** After the folder's whole listing, its files are stripped, and the
      world and config files were seen exactly when the folder has them. */
  lemma FolderScanDone(t: Tree, x: Folder, listing: seq<string>)
    requires HasFolder(t, x) && listing == SortedKeys(FilesOf(t, x))
    ensures SetFiles(t, x, FilesOf(t, x) - Unrecognised(listing[..|listing|])) == StripSome(t, {x})
    ensures (World in listing[..|listing|]) == (World in FilesOf(t, x))
    ensures (Config in listing[..|listing|]) == (Config in FilesOf(t, x))
  {
    assert listing[..|listing|] == listing;
    assert FilesOf(t, x) - Unrecognised(listing) == Strip(FilesOf(t, x));
    StripOne(t, x);
  }

  /** The map folders of the format directories with the given names. */
  function FormatsNamed(t: Tree, minigame: string, names: seq<string>): set<Folder>
    requires minigame in t
  {
    set f, k | f in names && f in t[minigame] && k in t[minigame][f] :: Folder(minigame, f, k)
  }

  /** The format the scan reaches has none of its folders scanned yet. */
  lemma MiniGameScanFresh(t: Tree, minigame: string, names: seq<string>, i: int)
    requires minigame in t
    requires names == SortedKeys(t[minigame].Keys) && 0 <= i < |names|
    ensures names[i] in t[minigame]
    ensures forall x :: x in FormatsNamed(t, minigame, names[..i]) ==> x.format != names[i]
  {
    SortedPrefix(names, i);
    LessIrreflexive(names[i]);
  }

  /** The records of the formats of a listing, each format directory
      dashed. */
  ghost predicate FormatsScanned(gm: MiniGameDir, listing: seq<string>, formats: seq<Format>)
  {
    && |formats| == |listing|
    && forall j :: 0 <= j < |listing| ==>
         && listing[j] in gm
         && Dashed(gm[listing[j]])
         && formats[j] == Format(listing[j], FormatRecords(gm[listing[j]]))
  }

  /** One more format, with its folders scanned and recorded. */
  lemma MiniGameScanStep(t: Tree, minigame: string, names: seq<string>, i: int, formats: seq<Format>)
    requires minigame in t && 0 <= i < |names| && names[i] in t[minigame]
    requires Dashed(t[minigame][names[i]])
    requires FormatsScanned(t[minigame], names[..i], formats)
    ensures FormatsScanned(t[minigame], names[..i + 1], formats + [Format(names[i], FormatRecords(t[minigame][names[i]]))])
    ensures FormatsNamed(t, minigame, names[..i + 1]) ==
              FormatsNamed(t, minigame, names[..i]) + FormatFolders(t, minigame, names[i])
  {
    FormatsScannedSnoc(t[minigame], names, i, formats);
    FormatsNamedSnoc(t, minigame, names, i);
  }

  lemma FormatsScannedSnoc(gm: MiniGameDir, names: seq<string>, i: int, formats: seq<Format>)
    requires 0 <= i < |names| && names[i] in gm && Dashed(gm[names[i]])
    requires FormatsScanned(gm, names[..i], formats)
    ensures FormatsScanned(gm, names[..i + 1], formats + [Format(names[i], FormatRecords(gm[names[i]]))])
  {
    var fs := formats + [Format(names[i], FormatRecords(gm[names[i]]))];
    forall j | 0 <= j < i + 1
      ensures names[..i + 1][j] in gm && Dashed(gm[names[..i + 1][j]])
      ensures fs[j] == Format(names[..i + 1][j], FormatRecords(gm[names[..i + 1][j]]))
    {
      if j < i {
        assert names[..i + 1][j] == names[..i][j];
      }
    }
  }

  lemma FormatsNamedSnoc(t: Tree, minigame: string, names: seq<string>, i: int)
    requires minigame in t && 0 <= i < |names|
    requires names[i] in t[minigame]
    ensures FormatsNamed(t, minigame, names[..i + 1]) ==
              FormatsNamed(t, minigame, names[..i]) + FormatFolders(t, minigame, names[i])
  {
    assert names[..i + 1] == names[..i] + [names[i]];
  }

  /** After the whole listing, every format is scanned and recorded. */
  lemma MiniGameScanDone(t: Tree, minigame: string, names: seq<string>, formats: seq<Format>)
    requires minigame in t
    requires names == SortedKeys(t[minigame].Keys)
    requires FormatsScanned(t[minigame], names[..|names|], formats)
    ensures names[..|names|] == names
    ensures forall f :: f in t[minigame] ==> Dashed(t[minigame][f])
    ensures formats == MiniGameRecords(t[minigame])
    ensures FormatsNamed(t, minigame, names) == MiniGameFolders(t, minigame)
  {
    assert names[..|names|] == names;
    forall f | f in t[minigame]
      ensures Dashed(t[minigame][f])
    {
      var j :| 0 <= j < |names| && names[j] == f;
    }
  }

  /** The first dashless folder of a format is the first of its minigame
      when the formats before it are dashed, and the folders before it are
      those of the earlier formats and its own earlier folders. */
  lemma MiniGameBefore(t: Tree, minigame: string, names: seq<string>, i: int, formats: seq<Format>, c: Folder)
    requires minigame in t
    requires names == SortedKeys(t[minigame].Keys) && 0 <= i < |names|
    requires FormatsScanned(t[minigame], names[..i], formats)
    requires FirstDashless(FormatFolders(t, minigame, names[i]), c)
    ensures FirstDashless(MiniGameFolders(t, minigame), c)
    ensures Before(MiniGameFolders(t, minigame), c) ==
              FormatsNamed(t, minigame, names[..i]) + Before(FormatFolders(t, minigame, names[i]), c)
  {
    var S := MiniGameFolders(t, minigame);
    SortedPrefix(names, i);
    LessIrreflexive(minigame);
    forall x | x in S && FolderLess(x, c)
      ensures '-' in x.name
    {
      if x.format != names[i] {
        var j :| 0 <= j < i && names[..i][j] == x.format;
      }
    }
  }

  /** The map folders of the minigame directories with the given names. */
  function MiniGamesNamed(t: Tree, names: seq<string>): set<Folder>
  {
    set mg, f, k | mg in names && mg in t && f in t[mg] && k in t[mg][f] :: Folder(mg, f, k)
  }

  /** The records of the minigames of a listing, each minigame directory
      dashed throughout. */
  ghost predicate TreeScanned(t: Tree, listing: seq<string>, minigames: seq<MiniGame>)
  {
    && |minigames| == |listing|
    && forall j :: 0 <= j < |listing| ==>
         && listing[j] in t
         && (forall f :: f in t[listing[j]] ==> Dashed(t[listing[j]][f]))
         && minigames[j] == MiniGame(listing[j], MiniGameRecords(t[listing[j]]))
  }

  /** The minigame the scan reaches has none of its folders scanned yet. */
  lemma TreeScanFresh(t: Tree, names: seq<string>, i: int)
    requires names == SortedKeys(t.Keys) && 0 <= i < |names|
    ensures names[i] in t
    ensures forall x :: x in MiniGamesNamed(t, names[..i]) ==> x.minigame != names[i]
  {
    SortedPrefix(names, i);
    LessIrreflexive(names[i]);
  }

  /** One more minigame, with its folders scanned and recorded. */
  lemma TreeScanStep(t: Tree, names: seq<string>, i: int, minigames: seq<MiniGame>)
    requires 0 <= i < |names| && names[i] in t
    requires forall f :: f in t[names[i]] ==> Dashed(t[names[i]][f])
    requires TreeScanned(t, names[..i], minigames)
    ensures TreeScanned(t, names[..i + 1], minigames + [MiniGame(names[i], MiniGameRecords(t[names[i]]))])
    ensures MiniGamesNamed(t, names[..i + 1]) == MiniGamesNamed(t, names[..i]) + MiniGameFolders(t, names[i])
  {
    TreeScannedSnoc(t, names, i, minigames);
    MiniGamesNamedSnoc(t, names, i);
  }

  lemma TreeScannedSnoc(t: Tree, names: seq<string>, i: int, minigames: seq<MiniGame>)
    requires 0 <= i < |names| && names[i] in t
    requires forall f :: f in t[names[i]] ==> Dashed(t[names[i]][f])
    requires TreeScanned(t, names[..i], minigames)
    ensures TreeScanned(t, names[..i + 1], minigames + [MiniGame(names[i], MiniGameRecords(t[names[i]]))])
  {
    var ms := minigames + [MiniGame(names[i], MiniGameRecords(t[names[i]]))];
    var ns := names[..i + 1];
    forall j | 0 <= j < i + 1
      ensures ns[j] in t
      ensures forall f :: f in t[ns[j]] ==> Dashed(t[ns[j]][f])
      ensures ms[j] == MiniGame(ns[j], MiniGameRecords(t[ns[j]]))
    {
      if j < i {
        assert ns[j] == names[..i][j];
      }
    }
  }

  lemma MiniGamesNamedSnoc(t: Tree, names: seq<string>, i: int)
    requires 0 <= i < |names| && names[i] in t
    ensures MiniGamesNamed(t, names[..i + 1]) == MiniGamesNamed(t, names[..i]) + MiniGameFolders(t, names[i])
  {
    assert names[..i + 1] == names[..i] + [names[i]];
  }

  /** After the whole listing, every minigame is scanned and recorded. */
  lemma TreeScanDone(t: Tree, names: seq<string>, minigames: seq<MiniGame>)
    requires names == SortedKeys(t.Keys)
    requires TreeScanned(t, names[..|names|], minigames)
    ensures names[..|names|] == names
    ensures TreeDashed(t)
    ensures minigames == TreeRecords(t)
    ensures MiniGamesNamed(t, names) == AllFolders(t)
  {
    assert names[..|names|] == names;
    forall mg, f | mg in t && f in t[mg]
      ensures Dashed(t[mg][f])
    {
      var j :| 0 <= j < |names| && names[j] == mg;
    }
  }

  /** The first dashless folder of a minigame is the first of the tree
      when the minigames before it are dashed, and the folders before it are
      those of the earlier minigames and its own earlier folders. */
  lemma TreeBefore(t: Tree, names: seq<string>, i: int, minigames: seq<MiniGame>, c: Folder)
    requires names == SortedKeys(t.Keys) && 0 <= i < |names| && names[i] in t
    requires TreeScanned(t, names[..i], minigames)
    requires FirstDashless(MiniGameFolders(t, names[i]), c)
    ensures FirstDashless(AllFolders(t), c)
    ensures Before(AllFolders(t), c) == MiniGamesNamed(t, names[..i]) + Before(MiniGameFolders(t, names[i]), c)
  {
    var S := AllFolders(t);
    var M := MiniGameFolders(t, names[i]);
    SortedPrefix(names, i);
    forall x | x in S
      ensures FolderLess(x, c) <==> x in MiniGamesNamed(t, names[..i]) || x in Before(M, c)
    {
      AllFoldersIff(t, x);
      if x.minigame == names[i] {
        assert x in M;
      }
    }
    forall x | x in S && FolderLess(x, c)
      ensures '-' in x.name
    {
      AllFoldersIff(t, x);
      if x.minigame != names[i] {
        EarlierDashed(t, names, i, minigames, x);
      }
    }
  }

  /** A folder of a minigame scanned before has a '-'. */
  lemma EarlierDashed(t: Tree, names: seq<string>, i: int, minigames: seq<MiniGame>, x: Folder)
    requires 0 <= i <= |names| && TreeScanned(t, names[..i], minigames)
    requires HasFolder(t, x) && x.minigame in names[..i]
    ensures '-' in x.name
  {
    var j :| 0 <= j < i && names[..i][j] == x.minigame;
    assert Dashed(t[x.minigame][x.format]);
  }

  /** The folders of a format directory before the i-th of its listing are
      those the scan has passed. */
  lemma FormatBefore(t: Tree, minigame: string, format: string, names: seq<string>, i: int, maps: seq<GameMap>)
    requires minigame in t && format in t[minigame]
    requires 0 <= i < |names| && names[i] in t[minigame][format]
    requires forall x :: x in FormatFolders(t, minigame, format) ==>
               (FolderLess(x, Folder(minigame, format, names[i])) <==> x.name in names[..i])
    requires MapsScanned(t[minigame][format], names[..i], maps)
    requires '-' !in names[i]
    ensures var c := Folder(minigame, format, names[i]);
      && FirstDashless(FormatFolders(t, minigame, format), c)
      && Before(FormatFolders(t, minigame, format), c) == FoldersNamed(minigame, format, names[..i])
  {
    var c := Folder(minigame, format, names[i]);
    var S := FormatFolders(t, minigame, format);
    forall x | x in S && FolderLess(x, c)
      ensures '-' in x.name
    {
      var j :| 0 <= j < i && names[..i][j] == x.name;
      assert '-' in names[..i][j];
    }
    forall x
      ensures x in Before(S, c) <==> x in FoldersNamed(minigame, format, names[..i])
    {
      if x in FoldersNamed(minigame, format, names[..i]) {
        var j :| 0 <= j < i && names[..i][j] == x.name;
      }
    }
  }

  /** A folder of a format directory comes before the i-th of its listing
      exactly when its name is among the first i. */
  lemma FormatLessIff(t: Tree, minigame: string, format: string, names: seq<string>, i: int)
    requires minigame in t && format in t[minigame]
    requires names == SortedKeys(t[minigame][format].Keys) && 0 <= i < |names|
    ensures forall x :: x in FormatFolders(t, minigame, format) ==>
              (FolderLess(x, Folder(minigame, format, names[i])) <==> x.name in names[..i])
  {
    SortedPrefix(names, i);
    LessIrreflexive(minigame);
    LessIrreflexive(format);
  }

  // ---------------------------------------------------------------------
  // The cases of one whole pass
  // ---------------------------------------------------------------------

  lemma UpdatedFrom(t: Tree, response: MapsResponse, scheme: Scheme, served: set<Request>,
                    catalog: seq<MiniGame>, p: Pass<Tree>)
    requires response.success && HasVersions(response.minigames)
    requires Resolved(scheme, response.minigames, catalog)
    requires Reconciled(t, catalog, served, p)
    ensures MapsUpdated(t, response, scheme, served, p)
  {
  }

  lemma EmptyFails(t: Tree, catalog: seq<MiniGame>, served: set<Request>, p: Pass<Tree>)
    requires t.Keys == {}
    requires p == AddAll(Prune(t, Removals([], catalog)), Targets(catalog), served)
    requires p.outcome.Fail?
    ensures Reconciled(t, catalog, served, p)
  {
  }

  lemma EmptyTwice(t: Tree, catalog: seq<MiniGame>, served: set<Request>, first: Pass<Tree>, second: Pass<Tree>)
    requires t.Keys == {}
    requires first == AddAll(Prune(t, Removals([], catalog)), Targets(catalog), served)
    requires !first.outcome.Fail?
    requires second == AddAll(Prune(first.state, Removals([], catalog)), Targets(catalog), served)
    ensures Reconciled(t, catalog, served, Pass(second.outcome, second.state, first.fetched + second.fetched))
  {
  }

  lemma ScanFails(t: Tree, catalog: seq<MiniGame>, served: set<Request>, u: Tree)
    requires t.Keys != {} && !TreeDashed(t)
    requires exists c :: FirstDashless(AllFolders(t), c) && u == StripSome(t, Before(AllFolders(t), c))
    ensures Reconciled(t, catalog, served, Pass(Fail(IndexOutOfRange), u, []))
  {
  }

  lemma ScanPasses(t: Tree, catalog: seq<MiniGame>, served: set<Request>, p: Pass<Tree>)
    requires t.Keys != {} && TreeDashed(t)
    requires p == AddAll(Prune(StripSome(t, AllFolders(t)), Removals(TreeRecords(t), catalog)), Targets(catalog), served)
    ensures Reconciled(t, catalog, served, p)
  {
  }

  // ---------------------------------------------------------------------
  // What one whole pass achieves
  // ---------------------------------------------------------------------

  /** On an empty maps directory the second round of removals and
      additions, reached by falling through, changes and fetches nothing
      when no catalog names collide: the pass is one round of additions. */
  lemma EmptyOnce(t: Tree, catalog: seq<MiniGame>, served: set<Request>, p: Pass<Tree>)
    requires t.Keys == {}
    requires NoCollision(Targets(catalog))
    requires Reconciled(t, catalog, served, p)
    ensures p == AddAll(t, Targets(catalog), served)
  {
    assert Removals([], catalog) == {};
    PruneNothing(t);
    var first := AddAll(t, Targets(catalog), served);
    if !first.outcome.Fail? {
      PruneNothing(first.state);
      AddAllTwice(t, Targets(catalog), served);
      assert first.fetched + [] == first.fetched;
    }
  }

  /** A pass that ends Done leaves every catalog map installed in its
      versioned folder, when no catalog names collide. */
  lemma ReconciledInstalls(t: Tree, catalog: seq<MiniGame>, served: set<Request>, p: Pass<Tree>)
    requires NoCollision(Targets(catalog))
    requires Reconciled(t, catalog, served, p)
    requires p.outcome == Done
    ensures forall x :: x in Targets(catalog) ==> HasFolder(p.state, Installed(x))
  {
    if t.Keys == {} {
      var first := AddAll(Prune(t, Removals([], catalog)), Targets(catalog), served);
      AddAllPresent(Prune(first.state, Removals([], catalog)), Targets(catalog), served);
    } else if TreeDashed(t) {
      AddAllPresent(Prune(StripSome(t, AllFolders(t)), Removals(TreeRecords(t), catalog)), Targets(catalog), served);
    }
  }
}

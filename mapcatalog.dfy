/** The map catalog and the two decisions the map service takes with it:
    which local paths to remove (deleteOldAndWrongMaps) and which catalog
    maps to fetch (addNewMaps). */
module MapCatalog {
  import opened Common
  import opened Strings
  import opened Listing
  import opened Versions
  import opened MapTree

  /** models.Map: a catalog map, or the record the scan makes of a local
      map folder (with no versions). */
  datatype GameMap = GameMap(name: string, versions: seq<string>, lastVersion: string, hasWorld: bool, hasConfig: bool)

  /** models.Format. */
  datatype Format = Format(format: string, maps: seq<GameMap>)

  /** models.MiniGames. */
  datatype MiniGame = MiniGame(name: string, formats: seq<Format>)

  /** models.MapsResponse. */
  datatype MapsResponse = MapsResponse(success: bool, minigames: seq<MiniGame>)

  // ---------------------------------------------------------------------
  // The catalog's latest versions (GetMapsInfo)
  // ---------------------------------------------------------------------

  /** Every catalog map lists at least one version. */
  predicate HasVersions(minigames: seq<MiniGame>)
  {
    forall g :: g in minigames ==> forall f :: f in g.formats ==> forall m :: m in f.maps ==> m.versions != []
  }

  ghost predicate ResolvedMaps(scheme: Scheme, raw: seq<GameMap>, res: seq<GameMap>)
  {
    && |res| == |raw|
    && forall i :: 0 <= i < |raw| ==>
         res[i] == raw[i].(lastVersion := res[i].lastVersion) && IsLatest(scheme, raw[i].versions, res[i].lastVersion)
  }

  ghost predicate ResolvedFormats(scheme: Scheme, raw: seq<Format>, res: seq<Format>)
  {
    && |res| == |raw|
    && forall i :: 0 <= i < |raw| ==> res[i].format == raw[i].format && ResolvedMaps(scheme, raw[i].maps, res[i].maps)
  }

  /** res is the catalog with every map's LastVersion set to the latest of
      its versions, and nothing else changed. */
  ghost predicate Resolved(scheme: Scheme, raw: seq<MiniGame>, res: seq<MiniGame>)
  {
    && |res| == |raw|
    && forall i :: 0 <= i < |raw| ==> res[i].name == raw[i].name && ResolvedFormats(scheme, raw[i].formats, res[i].formats)
  }

  // ---------------------------------------------------------------------
  // The scan's records of local map folders
  // ---------------------------------------------------------------------

  /** The record the scan makes of a map folder: field 0 of the folder name
      is the map name, field 1 the version, and the flags say whether the
      two map files are present. */
  function Record(folder: string, files: Files): GameMap
    requires '-' in folder
  {
    GameMap(Split(folder, '-')[0], [], Split(folder, '-')[1], World in files, Config in files)
  }

  /** A folder name of the form `<name>-<version>`, with exactly one '-'. */
  predicate SingleDash(folder: string)
  {
    |Split(folder, '-')| == 2
  }

  /** Every folder name of a format directory has a '-'. */
  predicate Dashed(fm: FormatDir)
  {
    forall k :: k in fm ==> '-' in k
  }

  /** Every folder name of the tree has a '-', so the scan does not panic. */
  predicate TreeDashed(t: Tree)
  {
    forall mg, f :: mg in t && f in t[mg] ==> Dashed(t[mg][f])
  }

  /** The records of the folders of a listing, in its order. */
  function MapRecords(fm: FormatDir, listing: seq<string>): seq<GameMap>
    requires forall k :: k in listing ==> k in fm && '-' in k
  {
    seq(|listing|, j requires 0 <= j < |listing| => Record(listing[j], fm[listing[j]]))
  }

  /** The records of a format directory, in the order of os.ReadDir. */
  ghost function FormatRecords(fm: FormatDir): seq<GameMap>
    requires Dashed(fm)
  {
    MapRecords(fm, SortedKeys(fm.Keys))
  }

  /** The formats of a listing of a minigame directory, with their records. */
  ghost function FormatList(gm: MiniGameDir, listing: seq<string>): seq<Format>
    requires forall f :: f in listing ==> f in gm && Dashed(gm[f])
  {
    seq(|listing|, i requires 0 <= i < |listing| => Format(listing[i], FormatRecords(gm[listing[i]])))
  }

  /** The formats of a minigame directory, in the order of os.ReadDir. */
  ghost function MiniGameRecords(gm: MiniGameDir): seq<Format>
    requires forall f :: f in gm ==> Dashed(gm[f])
  {
    FormatList(gm, SortedKeys(gm.Keys))
  }

  /** The minigames of a listing of the tree, with their records. */
  ghost function MiniGameList(t: Tree, listing: seq<string>): seq<MiniGame>
    requires TreeDashed(t)
    requires forall mg :: mg in listing ==> mg in t
  {
    seq(|listing|, i requires 0 <= i < |listing| => MiniGame(listing[i], MiniGameRecords(t[listing[i]])))
  }

  /** The local maps the scan reports: the tree's minigames in order, each
      with its formats in order, each with the records of its folders. */
  ghost function TreeRecords(t: Tree): seq<MiniGame>
    requires TreeDashed(t)
  {
    MiniGameList(t, SortedKeys(t.Keys))
  }

  /** The records of a format directory are the records of its folders. */
  lemma FormatRecordsIff(fm: FormatDir, lm: GameMap)
    requires Dashed(fm)
    ensures lm in FormatRecords(fm) <==> exists k :: k in fm && lm == Record(k, fm[k])
  {
    var listing := SortedKeys(fm.Keys);
    if k :| k in fm && lm == Record(k, fm[k]) {
      var j :| 0 <= j < |listing| && listing[j] == k;
      assert FormatRecords(fm)[j] == lm;
    }
  }

  /** A local format's records are those of its directory in the tree. */
  lemma RecordedFormat(t: Tree, lg: MiniGame, lf: Format)
    requires TreeDashed(t) && lg in TreeRecords(t) && lf in lg.formats
    ensures lg.name in t && lf.format in t[lg.name] && lf.maps == FormatRecords(t[lg.name][lf.format])
  {
  }

  /** Every minigame of the tree has a record. */
  lemma RecordOfMiniGame(t: Tree, mg: string)
    requires TreeDashed(t) && mg in t
    ensures MiniGame(mg, MiniGameRecords(t[mg])) in TreeRecords(t)
  {
    var listing := SortedKeys(t.Keys);
    var i :| 0 <= i < |listing| && listing[i] == mg;
    assert TreeRecords(t)[i] == MiniGame(mg, MiniGameRecords(t[mg]));
  }

  /** Every format directory of the tree has a record. */
  lemma RecordOfFormat(gm: MiniGameDir, f: string)
    requires (forall g :: g in gm ==> Dashed(gm[g])) && f in gm
    ensures Format(f, FormatRecords(gm[f])) in MiniGameRecords(gm)
  {
    var listing := SortedKeys(gm.Keys);
    var i :| 0 <= i < |listing| && listing[i] == f;
    assert MiniGameRecords(gm)[i] == Format(f, FormatRecords(gm[f]));
  }

  // ---------------------------------------------------------------------
  // What deleteOldAndWrongMaps removes
  // ---------------------------------------------------------------------

  /** A local map record is removed against the maps of a catalog format of
      the same name when no catalog map has its name, or one with its name
      has another LastVersion, or the local folder lacks world.rar or
      map.yml. */
  predicate Stale(lm: GameMap, cmaps: seq<GameMap>)
  {
    || (forall cm :: cm in cmaps ==> cm.name != lm.name)
    || exists cm :: cm in cmaps && cm.name == lm.name && (cm.lastVersion != lm.lastVersion || !lm.hasWorld || !lm.hasConfig)
  }

  /** The path removed for a stale record: the folder named by the record's
      name and version, which is not the scanned folder when its name has
      more than one '-'. */
  function MapRemovals(minigame: string, format: string, lm: GameMap, cmaps: seq<GameMap>): set<Path>
  {
    if Stale(lm, cmaps) then {FolderPath(minigame, format, FolderName(lm.name, lm.lastVersion))} else {}
  }

  /** The removals for each local map of a format against a catalog format. */
  function FolderRemovals(minigame: string, format: string, lmaps: seq<GameMap>, cmaps: seq<GameMap>): set<Path>
    decreases |lmaps|
  {
    if lmaps == [] then {}
    else
      var n := |lmaps| - 1;
      FolderRemovals(minigame, format, lmaps[..n], cmaps) + MapRemovals(minigame, format, lmaps[n], cmaps)
  }

  /** Against each catalog format of the same name, the removals of its maps. */
  function MatchedFormatRemovals(minigame: string, lf: Format, cformats: seq<Format>): set<Path>
    decreases |cformats|
  {
    if cformats == [] then {}
    else
      var n := |cformats| - 1;
      MatchedFormatRemovals(minigame, lf, cformats[..n])
      + (if cformats[n].format == lf.format then FolderRemovals(minigame, lf.format, lf.maps, cformats[n].maps) else {})
  }

  /** A local format absent from the catalog minigame is removed whole. */
  function LocalFormatRemovals(minigame: string, lf: Format, cformats: seq<Format>): set<Path>
  {
    (if forall cf :: cf in cformats ==> cf.format != lf.format then {FormatPath(minigame, lf.format)} else {})
    + MatchedFormatRemovals(minigame, lf, cformats)
  }

  /** The removals for each local format of a minigame. */
  function FormatRemovals(minigame: string, lformats: seq<Format>, cformats: seq<Format>): set<Path>
    decreases |lformats|
  {
    if lformats == [] then {}
    else
      var n := |lformats| - 1;
      FormatRemovals(minigame, lformats[..n], cformats) + LocalFormatRemovals(minigame, lformats[n], cformats)
  }

  /** Against each catalog minigame of the same name, the removals of its
      formats. */
  function MatchedMiniGameRemovals(lg: MiniGame, catalog: seq<MiniGame>): set<Path>
    decreases |catalog|
  {
    if catalog == [] then {}
    else
      var n := |catalog| - 1;
      MatchedMiniGameRemovals(lg, catalog[..n])
      + (if catalog[n].name == lg.name then FormatRemovals(lg.name, lg.formats, catalog[n].formats) else {})
  }

  /** A local minigame absent from the catalog is removed whole. */
  function LocalMiniGameRemovals(lg: MiniGame, catalog: seq<MiniGame>): set<Path>
  {
    (if forall c :: c in catalog ==> c.name != lg.name then {MiniGamePath(lg.name)} else {})
    + MatchedMiniGameRemovals(lg, catalog)
  }

  /** Every path deleteOldAndWrongMaps removes. */
  function Removals(local: seq<MiniGame>, catalog: seq<MiniGame>): set<Path>
    decreases |local|
  {
    if local == [] then {}
    else
      var n := |local| - 1;
      Removals(local[..n], catalog) + LocalMiniGameRemovals(local[n], catalog)
  }

  lemma {:induction false} FolderRemovalsIff(minigame: string, format: string, lmaps: seq<GameMap>, cmaps: seq<GameMap>, p: Path)
    ensures p in FolderRemovals(minigame, format, lmaps, cmaps) <==>
              exists lm :: lm in lmaps && Stale(lm, cmaps) && p == FolderPath(minigame, format, FolderName(lm.name, lm.lastVersion))
    decreases |lmaps|
  {
    if lmaps != [] {
      var n := |lmaps| - 1;
      FolderRemovalsIff(minigame, format, lmaps[..n], cmaps, p);
      assert lmaps == lmaps[..n] + [lmaps[n]];
    }
  }

  lemma {:induction false} MatchedFormatRemovalsIff(minigame: string, lf: Format, cformats: seq<Format>, p: Path)
    ensures p in MatchedFormatRemovals(minigame, lf, cformats) <==>
              exists cf :: cf in cformats && cf.format == lf.format && p in FolderRemovals(minigame, lf.format, lf.maps, cf.maps)
    decreases |cformats|
  {
    if cformats != [] {
      var n := |cformats| - 1;
      MatchedFormatRemovalsIff(minigame, lf, cformats[..n], p);
      assert cformats == cformats[..n] + [cformats[n]];
    }
  }

  lemma {:induction false} FormatRemovalsIff(minigame: string, lformats: seq<Format>, cformats: seq<Format>, p: Path)
    ensures p in FormatRemovals(minigame, lformats, cformats) <==>
              exists lf :: lf in lformats && p in LocalFormatRemovals(minigame, lf, cformats)
    decreases |lformats|
  {
    if lformats != [] {
      var n := |lformats| - 1;
      FormatRemovalsIff(minigame, lformats[..n], cformats, p);
      assert lformats == lformats[..n] + [lformats[n]];
    }
  }

  lemma {:induction false} MatchedMiniGameRemovalsIff(lg: MiniGame, catalog: seq<MiniGame>, p: Path)
    ensures p in MatchedMiniGameRemovals(lg, catalog) <==>
              exists c :: c in catalog && c.name == lg.name && p in FormatRemovals(lg.name, lg.formats, c.formats)
    decreases |catalog|
  {
    if catalog != [] {
      var n := |catalog| - 1;
      MatchedMiniGameRemovalsIff(lg, catalog[..n], p);
      assert catalog == catalog[..n] + [catalog[n]];
    }
  }

  lemma {:induction false} RemovalsIff(local: seq<MiniGame>, catalog: seq<MiniGame>, p: Path)
    ensures p in Removals(local, catalog) <==> exists lg :: lg in local && p in LocalMiniGameRemovals(lg, catalog)
    decreases |local|
  {
    if local != [] {
      var n := |local| - 1;
      RemovalsIff(local[..n], catalog, p);
      assert local == local[..n] + [local[n]];
    }
  }

  /** Removals by local minigame, opened one level. */
  lemma RemovalsAt(local: seq<MiniGame>, catalog: seq<MiniGame>, p: Path)
    ensures p in Removals(local, catalog) <==>
              exists lg :: lg in local &&
                (|| (p == MiniGamePath(lg.name) && forall c :: c in catalog ==> c.name != lg.name)
                 || exists c :: c in catalog && c.name == lg.name && p in FormatRemovals(lg.name, lg.formats, c.formats))
  {
    RemovalsIff(local, catalog, p);
    forall lg | lg in local
      ensures p in MatchedMiniGameRemovals(lg, catalog) <==>
                exists c :: c in catalog && c.name == lg.name && p in FormatRemovals(lg.name, lg.formats, c.formats)
    {
      MatchedMiniGameRemovalsIff(lg, catalog, p);
    }
  }

  /** Format removals by local format, opened one level. */
  lemma FormatRemovalsAt(minigame: string, lformats: seq<Format>, cformats: seq<Format>, p: Path)
    ensures p in FormatRemovals(minigame, lformats, cformats) <==>
              exists lf :: lf in lformats &&
                (|| (p == FormatPath(minigame, lf.format) && forall cf :: cf in cformats ==> cf.format != lf.format)
                 || exists cf :: cf in cformats && cf.format == lf.format && p in FolderRemovals(minigame, lf.format, lf.maps, cf.maps))
  {
    FormatRemovalsIff(minigame, lformats, cformats, p);
    forall lf | lf in lformats
      ensures p in MatchedFormatRemovals(minigame, lf, cformats) <==>
                exists cf :: cf in cformats && cf.format == lf.format && p in FolderRemovals(minigame, lf.format, lf.maps, cf.maps)
    {
      MatchedFormatRemovalsIff(minigame, lf, cformats, p);
    }
  }

  /** Format removals are paths below their minigame. */
  lemma FormatRemovalsShape(minigame: string, lformats: seq<Format>, cformats: seq<Format>, p: Path)
    requires p in FormatRemovals(minigame, lformats, cformats)
    ensures !p.MiniGamePath? && p.minigame == minigame
  {
    FormatRemovalsAt(minigame, lformats, cformats, p);
    var lf :| lf in lformats &&
      (|| (p == FormatPath(minigame, lf.format) && forall cf :: cf in cformats ==> cf.format != lf.format)
       || exists cf :: cf in cformats && cf.format == lf.format && p in FolderRemovals(minigame, lf.format, lf.maps, cf.maps));
    if p != FormatPath(minigame, lf.format) {
      var cf :| cf in cformats && cf.format == lf.format && p in FolderRemovals(minigame, lf.format, lf.maps, cf.maps);
      FolderRemovalsIff(minigame, lf.format, lf.maps, cf.maps, p);
    }
  }

  /** A local minigame is removed whole exactly when the catalog has no
      minigame of its name. */
  lemma MiniGameRemoved(t: Tree, catalog: seq<MiniGame>, mg: string)
    requires TreeDashed(t) && mg in t
    ensures MiniGamePath(mg) in Removals(TreeRecords(t), catalog) <==> forall c :: c in catalog ==> c.name != mg
  {
    var p := MiniGamePath(mg);
    var local := TreeRecords(t);
    RemovalsAt(local, catalog, p);
    RecordOfMiniGame(t, mg);
    forall lg, c | lg in local && c in catalog && c.name == lg.name
      ensures p !in FormatRemovals(lg.name, lg.formats, c.formats)
    {
      if p in FormatRemovals(lg.name, lg.formats, c.formats) {
        FormatRemovalsShape(lg.name, lg.formats, c.formats, p);
      }
    }
  }

  /** A removed format path comes from a catalog minigame lacking that
      format. */
  lemma FormatPathCause(local: seq<MiniGame>, catalog: seq<MiniGame>, mg: string, f: string)
    requires FormatPath(mg, f) in Removals(local, catalog)
    ensures exists c :: c in catalog && c.name == mg && forall cf :: cf in c.formats ==> cf.format != f
  {
    var p := FormatPath(mg, f);
    RemovalsAt(local, catalog, p);
    var lg, c :| lg in local && c in catalog && c.name == lg.name && p in FormatRemovals(lg.name, lg.formats, c.formats);
    FormatRemovalsShape(lg.name, lg.formats, c.formats, p);
    FormatRemovalsCause(lg.name, lg.formats, c.formats, f);
  }

  /** A format path among the format removals is that of a local format the
      catalog format list lacks. */
  lemma FormatRemovalsCause(mg: string, lformats: seq<Format>, cformats: seq<Format>, f: string)
    requires FormatPath(mg, f) in FormatRemovals(mg, lformats, cformats)
    ensures forall cf :: cf in cformats ==> cf.format != f
  {
    var p := FormatPath(mg, f);
    FormatRemovalsAt(mg, lformats, cformats, p);
    var lf :| lf in lformats &&
      (|| (p == FormatPath(mg, lf.format) && forall cf :: cf in cformats ==> cf.format != lf.format)
       || exists cf :: cf in cformats && cf.format == lf.format && p in FolderRemovals(mg, lf.format, lf.maps, cf.maps));
    if !(p == FormatPath(mg, lf.format) && forall cf :: cf in cformats ==> cf.format != lf.format) {
      var cf :| cf in cformats && cf.format == lf.format && p in FolderRemovals(mg, lf.format, lf.maps, cf.maps);
      FolderRemovalsIff(mg, lf.format, lf.maps, cf.maps, p);
    }
  }

  /** A local format is removed whole exactly when some catalog minigame of
      its minigame's name lacks the format. */
  lemma FormatRemoved(t: Tree, catalog: seq<MiniGame>, mg: string, f: string)
    requires TreeDashed(t) && mg in t && f in t[mg]
    ensures FormatPath(mg, f) in Removals(TreeRecords(t), catalog) <==>
              exists c :: c in catalog && c.name == mg && forall cf :: cf in c.formats ==> cf.format != f
  {
    var p := FormatPath(mg, f);
    var local := TreeRecords(t);
    if p in Removals(local, catalog) {
      FormatPathCause(local, catalog, mg, f);
    }
    if c :| c in catalog && c.name == mg && forall cf :: cf in c.formats ==> cf.format != f {
      RecordOfMiniGame(t, mg);
      RecordOfFormat(t[mg], f);
      var lg := MiniGame(mg, MiniGameRecords(t[mg]));
      var lf := Format(f, FormatRecords(t[mg][f]));
      FormatRemovalsAt(mg, lg.formats, c.formats, p);
      assert p in FormatRemovals(lg.name, lg.formats, c.formats);
      RemovalsAt(local, catalog, p);
    }
  }

  /** A local minigame of the scan is a minigame of the tree with its
      records. */
  lemma InTreeRecords(t: Tree, lg: MiniGame)
    requires TreeDashed(t) && lg in TreeRecords(t)
    ensures lg.name in t && lg.formats == MiniGameRecords(t[lg.name])
  {
  }

  /** A local format of the scan is a format of the directory with its
      records. */
  lemma InMiniGameRecords(gm: MiniGameDir, lf: Format)
    requires (forall g :: g in gm ==> Dashed(gm[g])) && lf in MiniGameRecords(gm)
    ensures lf.format in gm && lf.maps == FormatRecords(gm[lf.format])
  {
  }

  /** The record of a `<name>-<version>` folder names that folder back. */
  lemma RecordNamesFolder(k: string, files: Files)
    requires SingleDash(k)
    ensures FolderName(Record(k, files).name, Record(k, files).lastVersion) == k
  {
    var r := Split(k, '-');
    JoinSplit(k, '-');
    assert Join(r, '-') == r[0] + ['-'] + Join(r[1..], '-');
    assert r[1..] == [r[1]];
  }

  /** The folder a record names has exactly one '-'. */
  lemma RecordFolderSingleDash(k: string, files: Files)
    requires '-' in k
    ensures SingleDash(FolderName(Record(k, files).name, Record(k, files).lastVersion))
  {
    var r := Split(k, '-');
    SplitPair(r[0], r[1], '-');
    assert r[0] + ['-'] + r[1] == FolderName(r[0], r[1]);
  }

  /** A folder path among the removals comes from a local minigame and a
      catalog minigame of its minigame's name. */
  lemma RemovalsFolderAt(local: seq<MiniGame>, catalog: seq<MiniGame>, mg: string, f: string, k: string)
    ensures FolderPath(mg, f, k) in Removals(local, catalog) <==>
              exists lg, c :: lg in local && c in catalog && lg.name == mg && c.name == mg &&
                FolderPath(mg, f, k) in FormatRemovals(mg, lg.formats, c.formats)
  {
    var p := FolderPath(mg, f, k);
    RemovalsAt(local, catalog, p);
    if p in Removals(local, catalog) {
      var lg, c :| lg in local && c in catalog && c.name == lg.name && p in FormatRemovals(lg.name, lg.formats, c.formats);
      FormatRemovalsShape(lg.name, lg.formats, c.formats, p);
    }
  }

  /** A folder path among the format removals comes from a local format and
      a catalog format of its format's name. */
  lemma FormatRemovalsFolderAt(mg: string, lformats: seq<Format>, cformats: seq<Format>, f: string, k: string)
    ensures FolderPath(mg, f, k) in FormatRemovals(mg, lformats, cformats) <==>
              exists lf, cf :: lf in lformats && cf in cformats && lf.format == f && cf.format == f &&
                FolderPath(mg, f, k) in FolderRemovals(mg, f, lf.maps, cf.maps)
  {
    var p := FolderPath(mg, f, k);
    FormatRemovalsAt(mg, lformats, cformats, p);
    if p in FormatRemovals(mg, lformats, cformats) {
      var lf :| lf in lformats &&
        (|| (p == FormatPath(mg, lf.format) && forall cf :: cf in cformats ==> cf.format != lf.format)
         || exists cf :: cf in cformats && cf.format == lf.format && p in FolderRemovals(mg, lf.format, lf.maps, cf.maps));
      var cf :| cf in cformats && cf.format == lf.format && p in FolderRemovals(mg, lf.format, lf.maps, cf.maps);
      FolderRemovalsIff(mg, lf.format, lf.maps, cf.maps, p);
    }
  }

  /** A removed folder path is named by a stale record of the scan. */
  lemma FolderPathCause(t: Tree, catalog: seq<MiniGame>, mg: string, f: string, k: string)
    returns (k': string, cf: Format)
    requires TreeDashed(t) && FolderPath(mg, f, k) in Removals(TreeRecords(t), catalog)
    ensures mg in t && f in t[mg] && k' in t[mg][f] && '-' in k'
    ensures k == FolderName(Record(k', t[mg][f][k']).name, Record(k', t[mg][f][k']).lastVersion)
    ensures exists c :: c in catalog && c.name == mg && cf in c.formats
    ensures cf.format == f && Stale(Record(k', t[mg][f][k']), cf.maps)
  {
    var p := FolderPath(mg, f, k);
    RemovalsFolderAt(TreeRecords(t), catalog, mg, f, k);
    var lg, c :| lg in TreeRecords(t) && c in catalog && lg.name == mg && c.name == mg &&
      p in FormatRemovals(mg, lg.formats, c.formats);
    InTreeRecords(t, lg);
    FormatRemovalsFolderAt(mg, lg.formats, c.formats, f, k);
    var lf, cf' :| lf in lg.formats && cf' in c.formats && lf.format == f && cf'.format == f &&
      p in FolderRemovals(mg, f, lf.maps, cf'.maps);
    cf := cf';
    InMiniGameRecords(t[mg], lf);
    FolderRemovalsIff(mg, f, lf.maps, cf.maps, p);
    var lm :| lm in lf.maps && Stale(lm, cf.maps) && p == FolderPath(mg, f, FolderName(lm.name, lm.lastVersion));
    FormatRecordsIff(t[mg][f], lm);
    k' :| k' in t[mg][f] && lm == Record(k', t[mg][f][k']);
  }

  /** Only folders with exactly one '-' in their name are removed one by
      one: a folder such as `a-1-old` is never named by a removal. */
  lemma RemovedFolderSingleDash(t: Tree, catalog: seq<MiniGame>, mg: string, f: string, k: string)
    requires TreeDashed(t) && FolderPath(mg, f, k) in Removals(TreeRecords(t), catalog)
    ensures SingleDash(k)
  {
    var k', cf := FolderPathCause(t, catalog, mg, f, k);
    RecordFolderSingleDash(k', t[mg][f][k']);
  }

  /** In a format directory whose folder names all have one '-', a folder
      is removed exactly when its record is stale against a catalog format
      of the same minigame and format names. */
  lemma FolderRemoved(t: Tree, catalog: seq<MiniGame>, x: Folder)
    requires TreeDashed(t) && HasFolder(t, x)
    requires forall k :: k in t[x.minigame][x.format] ==> SingleDash(k)
    ensures FolderPath(x.minigame, x.format, x.name) in Removals(TreeRecords(t), catalog) <==>
              exists c, cf :: c in catalog && cf in c.formats && c.name == x.minigame && cf.format == x.format &&
                Stale(Record(x.name, FilesOf(t, x)), cf.maps)
  {
    var mg, f, k := x.minigame, x.format, x.name;
    var p := FolderPath(mg, f, k);
    var local := TreeRecords(t);
    if p in Removals(local, catalog) {
      var k', cf := FolderPathCause(t, catalog, mg, f, k);
      RecordNamesFolder(k', t[mg][f][k']);
      var c :| c in catalog && c.name == mg && cf in c.formats;
    }
    if c, cf :| c in catalog && cf in c.formats && c.name == mg && cf.format == f &&
                Stale(Record(k, FilesOf(t, x)), cf.maps) {
      RecordOfMiniGame(t, mg);
      RecordOfFormat(t[mg], f);
      var lg := MiniGame(mg, MiniGameRecords(t[mg]));
      var lf := Format(f, FormatRecords(t[mg][f]));
      var lm := Record(k, t[mg][f][k]);
      FormatRecordsIff(t[mg][f], lm);
      RecordNamesFolder(k, t[mg][f][k]);
      FolderRemovalsIff(mg, f, lf.maps, cf.maps, p);
      FormatRemovalsFolderAt(mg, lg.formats, c.formats, f, k);
      RemovalsFolderAt(local, catalog, mg, f, k);
    }
  }

  /** Which map folders deleteOldAndWrongMaps keeps, when every folder name
      of the format directory has one '-': the catalog has the minigame,
      every catalog minigame of that name has the format, and no catalog
      format of those names finds the folder stale. A kept folder keeps its
      files. */
  lemma FolderKept(t: Tree, catalog: seq<MiniGame>, x: Folder)
    requires TreeDashed(t) && HasFolder(t, x)
    requires forall k :: k in t[x.minigame][x.format] ==> SingleDash(k)
    ensures var r := Prune(t, Removals(TreeRecords(t), catalog));
      && (HasFolder(r, x) <==>
            && (exists c :: c in catalog && c.name == x.minigame)
            && (forall c :: c in catalog && c.name == x.minigame ==>
                  exists cf :: cf in c.formats && cf.format == x.format)
            && !exists c, cf :: c in catalog && cf in c.formats && c.name == x.minigame && cf.format == x.format &&
                  Stale(Record(x.name, FilesOf(t, x)), cf.maps))
      && (HasFolder(r, x) ==> FilesOf(r, x) == FilesOf(t, x))
  {
    PruneFolder(t, Removals(TreeRecords(t), catalog), x);
    MiniGameRemoved(t, catalog, x.minigame);
    FormatRemoved(t, catalog, x.minigame, x.format);
    FolderRemoved(t, catalog, x);
  }

  /** A folder whose name has more than one '-' is only removed with its
      format or minigame, whatever its files. */
  lemma MultiDashKept(t: Tree, catalog: seq<MiniGame>, x: Folder)
    requires TreeDashed(t) && HasFolder(t, x) && !SingleDash(x.name)
    ensures var r := Prune(t, Removals(TreeRecords(t), catalog));
      && (HasFolder(r, x) <==>
            && (exists c :: c in catalog && c.name == x.minigame)
            && (forall c :: c in catalog && c.name == x.minigame ==>
                  exists cf :: cf in c.formats && cf.format == x.format))
      && (HasFolder(r, x) ==> FilesOf(r, x) == FilesOf(t, x))
  {
    PruneFolder(t, Removals(TreeRecords(t), catalog), x);
    MiniGameRemoved(t, catalog, x.minigame);
    FormatRemoved(t, catalog, x.minigame, x.format);
    if FolderPath(x.minigame, x.format, x.name) in Removals(TreeRecords(t), catalog) {
      RemovedFolderSingleDash(t, catalog, x.minigame, x.format, x.name);
    }
  }

  /** A folder without world.rar, in a format the catalog lists, removes the
      folder its first two name fields name: for `island-2-old` that is
      `island-2`, even when `island-2` is complete and current. */
  lemma IncompleteRemovesNamed(t: Tree, catalog: seq<MiniGame>, mg: string, f: string, k: string, c: MiniGame, cf: Format)
    requires TreeDashed(t) && mg in t && f in t[mg] && k in t[mg][f] && World !in t[mg][f][k]
    requires c in catalog && cf in c.formats && c.name == mg && cf.format == f
    ensures '-' in k
    ensures FolderPath(mg, f, FolderName(Record(k, t[mg][f][k]).name, Record(k, t[mg][f][k]).lastVersion))
              in Removals(TreeRecords(t), catalog)
  {
    var lm := Record(k, t[mg][f][k]);
    var p := FolderPath(mg, f, FolderName(lm.name, lm.lastVersion));
    RecordOfMiniGame(t, mg);
    RecordOfFormat(t[mg], f);
    var lg := MiniGame(mg, MiniGameRecords(t[mg]));
    var lf := Format(f, FormatRecords(t[mg][f]));
    FormatRecordsIff(t[mg][f], lm);
    assert Stale(lm, cf.maps);
    FolderRemovalsIff(mg, f, lf.maps, cf.maps, p);
    FormatRemovalsFolderAt(mg, lg.formats, c.formats, f, p.folder);
    RemovalsFolderAt(TreeRecords(t), catalog, mg, f, p.folder);
  }

  /** A leftover folder `<name>-<version>-<suffix>` without world.rar
      deletes `<name>-<version>`, however complete and current that folder
      is, when the catalog lists the format. */
  lemma LeftoverDeletesCurrent(t: Tree, catalog: seq<MiniGame>, mg: string, f: string,
                               name: string, version: string, suffix: string, c: MiniGame, cf: Format)
    requires '-' !in name && '-' !in version && '-' !in suffix
    requires TreeDashed(t) && mg in t && f in t[mg]
    requires FolderName(FolderName(name, version), suffix) in t[mg][f]
    requires World !in t[mg][f][FolderName(FolderName(name, version), suffix)]
    requires c in catalog && cf in c.formats && c.name == mg && cf.format == f
    ensures !HasFolder(Prune(t, Removals(TreeRecords(t), catalog)), Folder(mg, f, FolderName(name, version)))
  {
    var k := FolderName(FolderName(name, version), suffix);
    LeftoverFields(name, version, suffix);
    IncompleteRemovesNamed(t, catalog, mg, f, k, c, cf);
    PruneFolder(t, Removals(TreeRecords(t), catalog), Folder(mg, f, FolderName(name, version)));
  }

  /** The fields of `<name>-<version>-<suffix>`. */
  lemma LeftoverFields(name: string, version: string, suffix: string)
    requires '-' !in name && '-' !in version && '-' !in suffix
    ensures Split(FolderName(FolderName(name, version), suffix), '-') == [name, version, suffix]
  {
    var fields := [name, version, suffix];
    SplitJoin(fields, '-');
    assert fields[1..][1..] == [suffix];
    assert Join(fields[1..], '-') == version + ['-'] + suffix;
    assert FolderName(FolderName(name, version), suffix) == name + ['-'] + (version + ['-'] + suffix);
  }

  // ---------------------------------------------------------------------
  // What addNewMaps installs
  // ---------------------------------------------------------------------

  /** A catalog map with the minigame and format it is listed under. */
  datatype Target = Target(minigame: string, format: string, entry: GameMap)

  /** The folder a target is installed in: `<name>-<LastVersion>`. */
  function Installed(x: Target): Folder
  {
    Folder(x.minigame, x.format, FolderName(x.entry.name, x.entry.lastVersion))
  }

  /** The folder DeleteMap removes before a target is written: `<name>`. */
  function Unversioned(x: Target): Folder
  {
    Folder(x.minigame, x.format, x.entry.name)
  }

  function WorldRequest(x: Target): Request
  {
    MapWorld(x.minigame, x.format, x.entry.name, x.entry.lastVersion)
  }

  function ConfigRequest(x: Target): Request
  {
    MapConfig(x.minigame, x.format, x.entry.name, x.entry.lastVersion)
  }

  /** The maps of one catalog format, in order. */
  function MapTargets(minigame: string, format: string, maps: seq<GameMap>): seq<Target>
  {
    seq(|maps|, i requires 0 <= i < |maps| => Target(minigame, format, maps[i]))
  }

  /** The maps of a catalog minigame, format by format. */
  function FormatTargets(minigame: string, formats: seq<Format>): seq<Target>
    decreases |formats|
  {
    if formats == [] then []
    else
      var n := |formats| - 1;
      FormatTargets(minigame, formats[..n]) + MapTargets(minigame, formats[n].format, formats[n].maps)
  }

  /** The maps of the catalog, in the order addNewMaps visits them. */
  function Targets(catalog: seq<MiniGame>): seq<Target>
    decreases |catalog|
  {
    if catalog == [] then []
    else
      var n := |catalog| - 1;
      Targets(catalog[..n]) + FormatTargets(catalog[n].name, catalog[n].formats)
  }

  lemma {:induction false} FormatTargetsIff(minigame: string, formats: seq<Format>, x: Target)
    ensures x in FormatTargets(minigame, formats) <==>
              exists f, m :: f in formats && m in f.maps && x == Target(minigame, f.format, m)
    decreases |formats|
  {
    if formats != [] {
      var n := |formats| - 1;
      FormatTargetsIff(minigame, formats[..n], x);
      assert formats == formats[..n] + [formats[n]];
      var ms := MapTargets(minigame, formats[n].format, formats[n].maps);
      if x in ms {
        var i :| 0 <= i < |ms| && ms[i] == x;
        assert formats[n].maps[i] in formats[n].maps;
      }
      if m :| m in formats[n].maps && x == Target(minigame, formats[n].format, m) {
        var i :| 0 <= i < |formats[n].maps| && formats[n].maps[i] == m;
        assert ms[i] == x;
      }
    }
  }

  /** The targets are the catalog's maps, each with its minigame and format. */
  lemma {:induction false} TargetsIff(catalog: seq<MiniGame>, x: Target)
    ensures x in Targets(catalog) <==>
              exists c, f, m :: c in catalog && f in c.formats && m in f.maps && x == Target(c.name, f.format, m)
    decreases |catalog|
  {
    if catalog != [] {
      var n := |catalog| - 1;
      TargetsIff(catalog[..n], x);
      FormatTargetsIff(catalog[n].name, catalog[n].formats, x);
      assert catalog == catalog[..n] + [catalog[n]];
    }
  }

  /** One step of addNewMaps: a map whose versioned folder exists is
      skipped; otherwise the world and then the config are downloaded, and
      UpdateMap writes both. A failed download ends the pass. */
  function AddMap(t: Tree, x: Target, served: set<Request>): Pass<Tree>
  {
    if HasFolder(t, Installed(x)) then Pass(Done, t, [])
    else if WorldRequest(x) !in served then Pass(Fail(DownloadError), t, [WorldRequest(x)])
    else if ConfigRequest(x) !in served then Pass(Fail(DownloadError), t, [WorldRequest(x), ConfigRequest(x)])
    else Pass(Done, WriteMap(t, x.minigame, x.format, x.entry.name, x.entry.lastVersion, true, true),
              [WorldRequest(x), ConfigRequest(x)])
  }

  /** addNewMaps over a list of targets, stopping at the first failure. */
  function AddAll(t: Tree, xs: seq<Target>, served: set<Request>): Pass<Tree>
    decreases |xs|
  {
    if xs == [] then Pass(Done, t, [])
    else
      var n := |xs| - 1;
      var p := AddAll(t, xs[..n], served);
      if p.outcome.Fail? then p
      else
        var q := AddMap(p.state, xs[n], served);
        Pass(q.outcome, q.state, p.fetched + q.fetched)
  }

  /** One more target: the pass over xs, then the step for x. */
  lemma AddAllSnoc(t: Tree, xs: seq<Target>, x: Target, served: set<Request>)
    ensures AddAll(t, xs + [x], served) ==
              var p := AddAll(t, xs, served);
              if p.outcome.Fail? then p
              else
                var q := AddMap(p.state, x, served);
                Pass(q.outcome, q.state, p.fetched + q.fetched)
  {
    assert (xs + [x])[..|xs|] == xs;
  }

  /** A target is installed already: every catalog map whose versioned
      folder exists is skipped, so nothing is downloaded or changed. */
  lemma {:induction false} AllPresentSkips(t: Tree, xs: seq<Target>, served: set<Request>)
    requires forall x :: x in xs ==> HasFolder(t, Installed(x))
    ensures AddAll(t, xs, served) == Pass(Done, t, [])
    decreases |xs|
  {
    if xs != [] {
      var n := |xs| - 1;
      assert forall x :: x in xs[..n] ==> x in xs;
      AllPresentSkips(t, xs[..n], served);
    }
  }

  /** No target's name is the versioned folder name of another target of
      the same minigame and format, so DeleteMap never removes a folder the
      pass installed. */
  predicate NoCollision(xs: seq<Target>)
  {
    forall x, y :: x in xs && y in xs ==> Unversioned(x) != Installed(y)
  }

  /** Map names without '-' never collide. */
  lemma DashFreeNoCollision(xs: seq<Target>)
    requires forall x :: x in xs ==> '-' !in x.entry.name
    ensures NoCollision(xs)
  {
    forall x, y | x in xs && y in xs
      ensures Unversioned(x) != Installed(y)
    {
      var n := FolderName(y.entry.name, y.entry.lastVersion);
      assert n[|y.entry.name|] == '-';
    }
  }

  /** A folder that exists and is no target's unversioned folder keeps its
      files through the pass. */
  lemma {:induction false} AddAllKeeps(t: Tree, xs: seq<Target>, served: set<Request>, y: Folder)
    requires HasFolder(t, y)
    requires forall x :: x in xs ==> Unversioned(x) != y
    ensures HasFolder(AddAll(t, xs, served).state, y)
    ensures FilesOf(AddAll(t, xs, served).state, y) == FilesOf(t, y)
    decreases |xs|
  {
    if xs != [] {
      var n := |xs| - 1;
      assert forall x :: x in xs[..n] ==> x in xs;
      AddAllKeeps(t, xs[..n], served, y);
      var p := AddAll(t, xs[..n], served);
      var x := xs[n];
      assert x in xs;
      if !HasFolder(p.state, Installed(x)) {
        WriteMapEffect(p.state, x.minigame, x.format, x.entry.name, x.entry.lastVersion, true, true);
        assert y != Installed(x);
      }
    }
  }

  /** After a pass that does not fail, every target's versioned folder
      exists, when no names collide. */
  lemma {:induction false} AddAllPresent(t: Tree, xs: seq<Target>, served: set<Request>)
    requires NoCollision(xs)
    requires AddAll(t, xs, served).outcome == Done
    ensures forall x :: x in xs ==> HasFolder(AddAll(t, xs, served).state, Installed(x))
    decreases |xs|
  {
    if xs != [] {
      var n := |xs| - 1;
      LastSplit([], xs);
      assert forall x :: x in xs[..n] ==> x in xs;
      var p := AddAll(t, xs[..n], served);
      AddAllPresent(t, xs[..n], served);
      AddMapPresent(p.state, xs[n], xs[..n], served);
    }
  }

  /** A map step that does not fail installs its target and keeps the
      folders of the earlier targets, which its unversioned folder never
      names. */
  lemma AddMapPresent(s: Tree, z: Target, ys: seq<Target>, served: set<Request>)
    requires forall x :: x in ys ==> HasFolder(s, Installed(x))
    requires forall x :: x in ys ==> Unversioned(z) != Installed(x)
    requires AddMap(s, z, served).outcome == Done
    ensures forall x :: x in ys + [z] ==> HasFolder(AddMap(s, z, served).state, Installed(x))
  {
    if !HasFolder(s, Installed(z)) {
      WriteMapEffect(s, z.minigame, z.format, z.entry.name, z.entry.lastVersion, true, true);
    }
  }

  /** A second pass after one that did not fail downloads nothing and
      changes nothing: what UpdateMaps relies on when it runs addNewMaps
      twice over an empty directory. */
  lemma AddAllTwice(t: Tree, xs: seq<Target>, served: set<Request>)
    requires NoCollision(xs)
    requires AddAll(t, xs, served).outcome == Done
    ensures var u := AddAll(t, xs, served).state; AddAll(u, xs, served) == Pass(Done, u, [])
  {
    AddAllPresent(t, xs, served);
    AllPresentSkips(AddAll(t, xs, served).state, xs, served);
  }

  /** Only targets whose versioned folder was missing are downloaded, when
      no names collide. */
  lemma {:induction false} AddAllFetchesMissing(t: Tree, xs: seq<Target>, served: set<Request>)
    requires NoCollision(xs)
    ensures forall r :: r in AddAll(t, xs, served).fetched ==>
              exists x :: x in xs && !HasFolder(t, Installed(x)) && (r == WorldRequest(x) || r == ConfigRequest(x))
    decreases |xs|
  {
    if xs != [] {
      var n := |xs| - 1;
      assert forall x :: x in xs[..n] ==> x in xs;
      AddAllFetchesMissing(t, xs[..n], served);
      var z := xs[n];
      if HasFolder(t, Installed(z)) {
        AddAllKeeps(t, xs[..n], served, Installed(z));
      }
    }
  }

  /** A pass fails only on a download the endpoint does not serve, and that
      download is the last one asked for. */
  lemma {:induction false} AddAllFails(t: Tree, xs: seq<Target>, served: set<Request>)
    requires AddAll(t, xs, served).outcome.Fail?
    ensures AddAll(t, xs, served).outcome == Fail(DownloadError)
    ensures var f := AddAll(t, xs, served).fetched; f != [] && f[|f| - 1] !in served
    decreases |xs|
  {
    var n := |xs| - 1;
    if AddAll(t, xs[..n], served).outcome.Fail? {
      AddAllFails(t, xs[..n], served);
    }
  }

  /** A pass that has failed stays failed: later targets are not visited. */
  lemma {:induction false} AddAllStops(t: Tree, xs: seq<Target>, ys: seq<Target>, served: set<Request>)
    requires AddAll(t, xs, served).outcome.Fail?
    ensures AddAll(t, xs + ys, served) == AddAll(t, xs, served)
    decreases |ys|
  {
    if ys != [] {
      var n := |ys| - 1;
      AddAllStops(t, xs, ys[..n], served);
      assert xs + ys == (xs + ys[..n]) + [ys[n]];
      AddAllSnoc(t, xs + ys[..n], ys[n], served);
    } else {
      assert xs + ys == xs;
    }
  }

  /** AddAllStops, for a sequence given by its two parts. */
  lemma AddAllStopsAt(t: Tree, xs: seq<Target>, ys: seq<Target>, zs: seq<Target>, served: set<Request>)
    requires zs == xs + ys
    requires AddAll(t, xs, served).outcome.Fail?
    ensures AddAll(t, zs, served) == AddAll(t, xs, served)
  {
    AddAllStops(t, xs, ys, served);
  }

  /** A non-empty ys is its front and then its last element, after xs too. */
  lemma LastSplit<T>(xs: seq<T>, ys: seq<T>)
    requires ys != []
    ensures ys == ys[..|ys| - 1] + [ys[|ys| - 1]]
    ensures xs + ys == (xs + ys[..|ys| - 1]) + [ys[|ys| - 1]]
  {
  }

  /** The pass over xs + ys: the pass over xs, and unless it failed, the
      pass over ys from the tree it left, its log after the first. */
  lemma {:induction false} AddAllAppend(t: Tree, xs: seq<Target>, ys: seq<Target>, served: set<Request>)
    ensures AddAll(t, xs + ys, served) ==
              var p := AddAll(t, xs, served);
              if p.outcome.Fail? then p
              else
                var q := AddAll(p.state, ys, served);
                Pass(q.outcome, q.state, p.fetched + q.fetched)
    decreases |ys|
  {
    var p := AddAll(t, xs, served);
    if ys == [] {
      assert xs + ys == xs;
      assert p.fetched + [] == p.fetched;
    } else {
      var n := |ys| - 1;
      LastSplit(xs, ys);
      AddAllAppend(t, xs, ys[..n], served);
      AddAllSnoc(t, xs + ys[..n], ys[n], served);
      if !p.outcome.Fail? {
        AddAllAfter(p, ys[..n], ys[n], served);
      }
    }
  }

  /** One more target for a pass that continues the log of a pass p that
      did not fail. */
  lemma AddAllAfter(p: Pass<Tree>, zs: seq<Target>, y: Target, served: set<Request>)
    requires !p.outcome.Fail?
    ensures var q := AddAll(p.state, zs, served);
      var q' := AddAll(p.state, zs + [y], served);
      Pass(q'.outcome, q'.state, p.fetched + q'.fetched) ==
        if q.outcome.Fail? then Pass(q.outcome, q.state, p.fetched + q.fetched)
        else
          var r := AddMap(q.state, y, served);
          Pass(r.outcome, r.state, (p.fetched + q.fetched) + r.fetched)
  {
    AddAllSnoc(p.state, zs, y, served);
    var q := AddAll(p.state, zs, served);
    if !q.outcome.Fail? {
      var r := AddMap(q.state, y, served);
      assert (p.fetched + q.fetched) + r.fetched == p.fetched + (q.fetched + r.fetched);
    }
  }


  /** The targets of the first k + 1 maps of a format. */
  lemma MapTargetsSnoc(minigame: string, format: string, maps: seq<GameMap>, k: int)
    requires 0 <= k < |maps|
    ensures MapTargets(minigame, format, maps[..k + 1]) ==
              MapTargets(minigame, format, maps[..k]) + [Target(minigame, format, maps[k])]
  {
  }

  /** The targets of the first formats of a minigame come first. */
  lemma {:induction false} FormatTargetsPrefix(minigame: string, formats: seq<Format>, m: int) returns (rest: seq<Target>)
    requires 0 <= m <= |formats|
    ensures FormatTargets(minigame, formats) == FormatTargets(minigame, formats[..m]) + rest
    decreases |formats|
  {
    if m == |formats| {
      assert formats[..m] == formats;
      rest := [];
    } else {
      var n := |formats| - 1;
      assert formats[..n][..m] == formats[..m];
      var r := FormatTargetsPrefix(minigame, formats[..n], m);
      rest := r + MapTargets(minigame, formats[n].format, formats[n].maps);
    }
  }

  /** The targets of the first minigames of the catalog come first. */
  lemma {:induction false} TargetsPrefix(catalog: seq<MiniGame>, m: int) returns (rest: seq<Target>)
    requires 0 <= m <= |catalog|
    ensures Targets(catalog) == Targets(catalog[..m]) + rest
    decreases |catalog|
  {
    if m == |catalog| {
      assert catalog[..m] == catalog;
      rest := [];
    } else {
      var n := |catalog| - 1;
      assert catalog[..n][..m] == catalog[..m];
      var r := TargetsPrefix(catalog[..n], m);
      rest := r + FormatTargets(catalog[n].name, catalog[n].formats);
    }
  }
}

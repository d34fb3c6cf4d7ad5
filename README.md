# luximo reconciliation core in Dafny

luximo keeps a Minecraft network's server directories in step with a remote
catalog. Four services do the work:

- the **Paper** and **Velocity** services keep one server build,
  `<family>-<version>.rar`, in their directories;
- the **plugin** service keeps `<name>-<version>.jar` files;
- the **map** service keeps a tree `<minigame>/<format>/<map>-<version>/`
  holding `world.rar` and `map.yml`.

Each service asks the catalog for the versions of every item and takes the
newest one. It reads its directory, removes what it decides is stale, and
downloads and writes what is missing or out of date. This project models
those decisions over names and presence of files, and proves what they do to
the directory and which downloads they ask for.

Modules:

- `Common`: errors, `Result`, `Outcome`, the download requests, and `Pass`,
  the record of what a pass did (outcome, resulting directory, requests).
- `Strings`: Go's `strings.Split`, `strings.Contains` and
  `strings.ReplaceAll(s, pat, "")`, with their round-trip properties.
- `Listing`: `os.ReadDir`, a sorted listing of a directory's names.
- `Versions`: the "latest version" loop shared by all four services, over an
  abstract version order.
- `Builds`: `services/paper.go` and `services/velocity.go`. The two files are
  the same code apart from the family name, so one class with a `family`
  field models both.
- `Plugins`: `services/plugin.go`.
- `MapTree`: the maps directory as a tree of minigame, format and map
  folders holding files; removal of a path, writing a map folder, and the
  scan's stripping of stray files.
- `MapCatalog`: the catalog types of `services/map.go`, the records the
  scan makes of local folders, the set of paths `deleteOldAndWrongMaps`
  removes, and the additions `addNewMaps` makes, as functions with their
  properties.
- `Maps`: `services/map.go`, the `MapService` class and its loops.

Each service is a class whose fields are its directory and a ghost log of
the downloads it asked for. Every method that changes the directory is
proved against a function of the old directory (`BuildPass`,
`PluginsPass`, ...). The lemmas about those functions carry the properties.
The network is a parameter `served`, the set of requests the endpoints
answer with status 200. The catalog is a parameter holding the decoded
response.

## Model

| member | source | states |
|---|---|---|
| `Strings.Split` | services/plugin.go:38 | `strings.Split` gives at least one field; no field contains the separator; there is a second field exactly when the separator occurs |
| `Strings.JoinSplit` | services/plugin.go:38 | splitting loses nothing: joining the fields with the separator gives the string back |
| `Strings.SplitJoin` | services/plugin.go:38 | fields without the separator, joined, split back into the same fields |
| `Strings.SplitPair` | services/plugin.go:149 | the name written as `a-b` splits back into `[a, b]` when neither part has a '-' |
| `Strings.SplitFieldCount` | services/map.go:61-63 | a name without '-' is its own only field, so field 1 does not exist |
| `Strings.SplitHead` | services/plugin.go:38-39 | when '-' occurs, field 0 followed by '-' is a prefix of the name |
| `Strings.ContainsIff` | services/plugin.go:66 | `strings.Contains` holds exactly when the pattern occurs at some position |
| `Strings.ContainsInPrefix` | services/plugin.go:169 | an occurrence in a prefix of a name is an occurrence in the name |
| `Strings.StripAll` | services/plugin.go:46 | `strings.ReplaceAll(s, pat, "")` never lengthens the string |
| `Strings.StripAbsent` | services/plugin.go:67 | removing a pattern that does not occur changes nothing, so the second ".jar" removal is a no-op on a version without ".jar" |
| `Strings.StripSuffix` | services/paper.go:62 | removing ".rar" (or ".jar") from `v + ".rar"` gives `v` back when `v` has none |
| `Listing.LessIrreflexive` | services/plugin.go:26 | no name sorts before itself |
| `Listing.LessTransitive` | services/plugin.go:26 | the name order of `os.ReadDir` is transitive |
| `Listing.LessTotal` | services/plugin.go:26 | any two distinct names are ordered |
| `Listing.LessAsymmetric` | services/plugin.go:26 | two names are never ordered both ways |
| `Listing.PrefixLess` | services/plugin.go:26 | a proper prefix sorts before the longer name |
| `Listing.SortedKeys` | services/plugin.go:26 | the listing of a set of names is sorted, holds exactly its members, and has one position per member |
| `Listing.SortedUnique` | services/plugin.go:26 | two sorted listings of the same names are equal, so the listing of a directory is determined by its entries |
| `Listing.SortedPrefix` | services/map.go:60 | the entries a loop over a sorted listing visited before position `i` are exactly the entries that sort before entry `i` |
| `Listing.LeastExists` | services/plugin.go:26 | every non-empty directory has a first entry in name order |
| `Listing.ReadDir` | services/plugin.go:26 | `os.ReadDir` returns the sorted listing of the entries (also services/map.go:31) |
| `Listing.Insert` | services/plugin.go:26 | inserting a new name into a sorted listing keeps it sorted and adds exactly that name |
| `Versions.Latest` | services/paper.go:111-117 | the latest version is the rendering of a greatest element under the version order; an empty list indexes out of range |
| `Builds.GetVersionsInfo` | services/paper.go:107-117 | a false success flag is a catalog error; otherwise `LastVersion` is the latest of the versions, and an empty list panics (same code at services/velocity.go:107-117) |
| `Builds.PassDownloadsOnce` | services/paper.go:78-85 | a run past the directory read asks for exactly one download, of `LastVersion`; it succeeds exactly when that download does, and then `paper-<LastVersion>.rar` is present and nothing else was added; a failed download adds nothing |
| `Builds.PassClearsUnlessSingle` | services/paper.go:34-51 | with zero or several entries, all are removed and only `paper-<LastVersion>.rar` is left (same code at services/velocity.go:34-51) |
| `Builds.PassReplacesNonRar` | services/paper.go:53-59 | a sole entry without ".rar" is removed and the new build is written |
| `Builds.PassPanicsOnDashlessRar` | services/paper.go:61-62 | a sole ".rar" entry without '-' indexes field 1 out of range, before any download |
| `Builds.BuildNameRoundTrip` | services/paper.go:142 | the written name `paper-<v>.rar` contains ".rar", splits into `paper` and `<v>.rar`, and reads back as version `v` |
| `Builds.PassKeepsOldBuild` | services/paper.go:53-85 | a sole ".rar" entry with a '-' is never removed, whichever version it carries (also a pre-release such as `3.3.0-SNAPSHOT`): exactly one download of `LastVersion` is made, the pass succeeds exactly when it is served, and then the new build is written beside the entry, so two files remain unless the entry already has its name (same code at services/velocity.go:53-85) |
| `Builds.PassRedownloadsCurrent` | services/paper.go:61-85 | a sole ".rar" entry whose field-1 version is already `LastVersion` is downloaded again, and the entry stays beside the written build: one file remains exactly when its name is `paper-<LastVersion>.rar`, while a name such as `paper-1.0-old.rar` leaves two |
| `Builds.PassConverges` | services/velocity.go:34-39 | after a successful run, a second successful run leaves exactly the one build, whatever the directory held |
| `Builds.BuildService.Download` | services/paper.go:122-139 | the download succeeds exactly when the endpoint serves the build, and the request is recorded in `fetched` |
| `Builds.BuildService.WriteVersion` | services/paper.go:141-153 | `UpdatePaperVersion` adds exactly `paper-<version>.rar` |
| `Builds.BuildService.RemoveEach` | services/paper.go:35-39 | removing every listed entry empties the directory |
| `Builds.BuildService.InstallLatest` | services/paper.go:41-50 | download then write; a failed download returns before any file is written |
| `Builds.BuildService.Reconcile` | services/paper.go:29-88 | the directory decision ends in the state, outcome and downloads of `BuildPass` |
| `Builds.BuildService.Update` | services/paper.go:23-27 | a catalog error or an empty version list returns before the directory is read; otherwise the run is `BuildPass` for a latest version (same code at services/velocity.go:23-88) |
| `Plugins.JarNameRoundTrip` | services/plugin.go:149 | the written name `<name>-<version>.jar` reads back as that name and version, and the second ".jar" removal changes nothing |
| `Plugins.DashlessComesFirst` | services/plugin.go:37-47 | in the sorted listing, a name without '-' is the name field of no earlier entry |
| `Plugins.RepeatedNameHasDash` | services/plugin.go:41-44 | an entry whose name field was met before has a '-' |
| `Plugins.ScanStepRepeated` | services/plugin.go:41-44 | a name met again is recorded for deletion |
| `Plugins.ScanStepNew` | services/plugin.go:46-47 | a new name records field 1 without ".jar" |
| `Plugins.KeptNameUnique` | services/plugin.go:50-52 | a name left after the deletions is carried by one file alone |
| `Plugins.UniqueNameKept` | services/plugin.go:41-52 | a name carried by one file alone is recorded with that file's version and never deleted |
| `Plugins.ScanResult` | services/plugin.go:37-52 | after the deletions the map holds exactly the names one file alone carries, each with that file's version |
| `Plugins.DropNames` | services/plugin.go:50-52 | the deletion loop removes exactly the duplicated names |
| `Plugins.ScanPlugins` | services/plugin.go:23-55 | the scan panics exactly when some file name lacks '-'; otherwise it yields the names one file alone carries with their versions, so a duplicated name is absent |
| `Plugins.GetPluginsInfo` | services/plugin.go:107-122 | a false success flag is a catalog error; a plugin without versions panics; otherwise each `LastVersion` is the latest of its versions and nothing else changes |
| `Plugins.FindLocalVersion` | services/plugin.go:64-71 | no version is found exactly when no local name contains the catalog name; a found version is that of some local name containing it, with ".jar" removed |
| `Plugins.DecisionForced` | services/plugin.go:73-75 | with at most one matching local name, the plugin is skipped exactly when that name carries `LastVersion` |
| `Plugins.SubstringMatchSkips` | services/plugin.go:66 | a local `myplugin` at the latest version makes catalog plugin `plugin` be skipped |
| `Plugins.ReplacedLeavesOneMatch` | services/plugin.go:144-160 | after `UpdatePlugin` the new file is present and is the only entry containing the plugin's name |
| `Plugins.PassTouchesOnlyMatches` | services/plugin.go:63-85 | the update loop removes only entries containing the name of a fetched plugin and adds only fetched plugins' files, so a plugin outside the catalog survives unless such a name occurs in its file name |
| `Plugins.AllSkippedChangesNothing` | services/plugin.go:73-75 | when every plugin is skipped, nothing is downloaded or changed |
| `Plugins.NameFieldContains` | services/plugin.go:66 | what a file's name field contains, the file name contains |
| `Plugins.ReplacedOnlyNamed` | services/plugin.go:144-160 | after a replacement only the new file has a name field containing the plugin's name |
| `Plugins.ReplacedThenSkipped` | services/plugin.go:63-75 | after a plugin is replaced, the next scan reads back its latest version and no other match, so the next run skips it |
| `Plugins.DuplicateRefetched` | services/plugin.go:41-52 | a name two files share is dropped from the scan, so the next update step must download it |
| `Plugins.PluginService.DownloadPlugin` | services/plugin.go:125-142 | the download succeeds exactly when the endpoint serves the plugin, and the request is recorded in `fetched` |
| `Plugins.PluginService.DeletePlugin` | services/plugin.go:162-179 | every entry containing the name is removed and every other entry stays |
| `Plugins.DeleteStep` | services/plugin.go:168-176 | one step of the deletion loop removes the entry exactly when it contains the name, keeping the directory equal to the original minus the matches seen so far |
| `Plugins.MatchingDone` | services/plugin.go:162-179 | after the whole listing, the matches removed are every entry of the directory containing the name |
| `Plugins.PluginService.UpdatePlugin` | services/plugin.go:144-160 | `DeletePlugin`, then exactly `<name>-<version>.jar` is created |
| `Plugins.PluginService.Apply` | services/plugin.go:63-87 | the loop ends in the state and downloads of `PluginsPass` for skip decisions the map order allows, stopping only at a failed download |
| `Plugins.PluginService.Update` | services/plugin.go:57-61 | a catalog error or an empty version list returns before any file is removed or written; otherwise the loop runs over the resolved catalog |
| `Plugins.PluginService.UpdatePlugins` | services/plugin.go:23-55 | a file name without '-' panics before the catalog is read; otherwise `update` runs with the scanned local versions |
| `MapTree.PruneFolder` | services/map.go:140-167 | after removing a set of paths, a map folder is present exactly when it was and neither it, its format nor its minigame was removed; its files are unchanged |
| `MapTree.PruneTwice` | services/map.go:116-168 | removing one set of paths and then another is removing their union |
| `MapTree.RemoveFolder` | services/map.go:148 | `os.RemoveAll` of a map folder path is the removal of that one path |
| `MapTree.PutEffect` | services/map.go:282-295 | `MkdirAll` and `Create` add exactly one file to a folder, creating it if needed, and touch no other folder |
| `MapTree.WriteMapEffect` | services/map.go:277-315 | `UpdateMap` removes the unversioned folder `<name>`, creates `<name>-<version>` holding `world.rar` and `map.yml` as the downloads allow, and changes no other folder |
| `MapTree.Strip` | services/map.go:72-81 | the scan keeps exactly `world.rar` and `map.yml` in a map folder |
| `MapTree.StripSomeFolder` | services/map.go:70-82 | a scanned folder keeps its place and only its `world.rar` and `map.yml`; folders not yet scanned are unchanged |
| `MapTree.StripTwice` | services/map.go:46-102 | scanning one set of folders and then another strips their union |
| `MapTree.SetFilesTwice` | services/map.go:77-80 | removing stray files one by one leaves the last file set written |
| `MapTree.StripElsewhere` | services/map.go:53-96 | scanning folders of other formats leaves a format directory unchanged |
| `MapCatalog.FormatRecordsIff` | services/map.go:59-90 | the scan's records of a format are exactly the records of its folders: field 0 as name, field 1 as version, and the two file flags |
| `MapCatalog.RecordedFormat` | services/map.go:46-102 | every format record of the scan names a format directory of the tree and holds that directory's records |
| `MapCatalog.RecordOfMiniGame` | services/map.go:98-101 | every minigame directory has its record in the scan |
| `MapCatalog.RecordNamesFolder` | services/map.go:61-63 | a folder name with exactly one '-' is given back by `<name>-<version>` of its record |
| `MapCatalog.RecordFolderSingleDash` | services/map.go:61-63 | the name `<name>-<version>` built from a record has exactly one '-' |
| `MapCatalog.LeftoverFields` | services/map.go:61-63 | `n-v-s` splits into three fields, so the record drops `-s` |
| `MapCatalog.FolderRemovalsIff` | services/map.go:132-151 | a map path is removed exactly for a stale record: no catalog map has its name, or one with its name has another version or the record lacks a file |
| `MapCatalog.MatchedFormatRemovalsIff` | services/map.go:126-153 | under a local format, paths are removed exactly by the catalog formats of the same name |
| `MapCatalog.FormatRemovalsIff` | services/map.go:124-160 | the removals of a minigame's formats are those of each local format |
| `MapCatalog.MatchedMiniGameRemovalsIff` | services/map.go:118-161 | under a local minigame, paths are removed exactly by the catalog minigames of the same name |
| `MapCatalog.RemovalsIff` | services/map.go:116-168 | the removals are those of each local minigame |
| `MapCatalog.RemovalsAt` | services/map.go:116-168 | a path is removed exactly when it is a local minigame no catalog minigame names, or a format or map path removed under a catalog minigame of the same name |
| `MapCatalog.FormatRemovalsAt` | services/map.go:124-160 | a path under a minigame is removed exactly when it is a local format no catalog format names, or a stale map under a catalog format of the same name |
| `MapCatalog.FormatRemovalsShape` | services/map.go:124-160 | format-level removals stay under their minigame and never remove a minigame |
| `MapCatalog.MiniGameRemoved` | services/map.go:163-167 | a scanned minigame directory is removed exactly when no catalog minigame has its name |
| `MapCatalog.FormatRemoved` | services/map.go:155-159 | a scanned format directory is removed exactly when some catalog minigame of its name lacks the format |
| `MapCatalog.FormatPathCause` | services/map.go:155-159 | a removed format path is explained by a catalog minigame of that name lacking the format |
| `MapCatalog.FolderPathCause` | services/map.go:132-151 | a removed map path is `<name>-<version>` of a scanned folder's record that a catalog format of that name marks stale |
| `MapCatalog.RemovedFolderSingleDash` | services/map.go:141-148 | every removed map path has exactly one '-' |
| `MapCatalog.FolderRemoved` | services/map.go:132-151 | in a format whose folder names have one '-' each, a folder's path is removed exactly when a matching catalog format marks its record stale |
| `MapCatalog.FolderKept` | services/map.go:116-168 | a map folder survives exactly when its minigame is in the catalog, every catalog minigame of that name has its format, and no matching catalog format marks its record stale; a survivor keeps its files |
| `MapCatalog.MultiDashKept` | services/map.go:61-63 | a folder whose name has several '-' is never removed by its own path: it survives exactly when its minigame and format do |
| `MapCatalog.IncompleteRemovesNamed` | services/map.go:140-141 | a folder without `world.rar` under a matching catalog format has the path of its record removed |
| `MapCatalog.LeftoverDeletesCurrent` | services/map.go:61-63 | a leftover folder `n-v-s` without `world.rar` makes the removal hit `n-v`, which may be the installed current map |
| `MapCatalog.FormatTargetsIff` | services/map.go:175-176 | the maps `addNewMaps` visits for a minigame are exactly the maps of its formats |
| `MapCatalog.TargetsIff` | services/map.go:174-176 | the maps `addNewMaps` visits are exactly the catalog's maps with their minigame and format |
| `MapCatalog.AddAllAppend` | services/map.go:174-176 | the pass over two lists of maps is the pass over the first followed, unless it failed, by the pass over the second |
| `MapCatalog.AllPresentSkips` | services/map.go:177-178 | when every versioned folder exists, `addNewMaps` changes and fetches nothing |
| `MapCatalog.DashFreeNoCollision` | services/map.go:177-189 | when no catalog map name has '-', no map's unversioned folder is another map's versioned folder |
| `MapCatalog.AddAllKeeps` | services/map.go:176-191 | a folder that no visited map's `DeleteMap` hits keeps its place and files |
| `MapCatalog.AddAllPresent` | services/map.go:173-198 | a pass that ends without error leaves every catalog map installed in `<name>-<LastVersion>`, when names do not collide |
| `MapCatalog.AddAllTwice` | services/map.go:173-198 | a second `addNewMaps` after a successful one changes and fetches nothing, when names do not collide |
| `MapCatalog.AddAllFetchesMissing` | services/map.go:177-187 | only maps whose versioned folder was missing are downloaded, when names do not collide |
| `MapCatalog.AddAllFails` | services/map.go:179-187 | a failed pass fails with a download error, and its last request is one the endpoint does not serve |
| `MapCatalog.AddAllStops` | services/map.go:180-187 | after the first failure nothing more is visited |
| `Maps.ResolveMaps` | services/map.go:223-232 | each map's `LastVersion` is the latest of its versions and nothing else changes; a map with no versions panics |
| `Maps.ResolveFormats` | services/map.go:222-233 | the maps of every format are resolved, and the formats are otherwise unchanged |
| `Maps.ResolveCatalog` | services/map.go:221-234 | the result is ok exactly when every map lists a version, and is then the resolved catalog |
| `Maps.GetMapsInfo` | services/map.go:200-237 | a false success flag is a catalog error; otherwise the catalog resolves exactly when every map has versions, and an empty version list panics |
| `Maps.StaleIff` | services/map.go:133-150 | the stale rule read position by position: no catalog map of the name, or one of the name that differs in version or lacks a file |
| `Maps.MapService.constructor` | services/map.go:19-21 | a service starts on its directory with nothing downloaded |
| `Maps.MapService.RemoveAll` | services/map.go:164 | `os.RemoveAll` of a path removes it and its contents |
| `Maps.MapService.RemoveFile` | services/map.go:78 | removing a stray file of a map folder removes only that file |
| `Maps.MapService.DeleteMap` | services/map.go:317-323 | `DeleteMap` removes the unversioned folder `<name>` |
| `Maps.MapService.UpdateMap` | services/map.go:277-315 | the tree becomes `WriteMap` of the old tree, so `WriteMapEffect` applies |
| `Maps.MapService.DownloadMapWorld` | services/map.go:239-256 | the download succeeds exactly when the endpoint serves the world file, and the request is recorded in `fetched` |
| `Maps.MapService.DownloadMapConfig` | services/map.go:258-275 | the download succeeds exactly when the endpoint serves the config file, and the request is recorded in `fetched` |
| `Maps.MapService.Stat` | services/map.go:177-178 | `os.Stat` reports not-exist exactly when the versioned folder is absent |
| `Maps.MapService.ScanFolder` | services/map.go:70-82 | the flags report `world.rar` and `map.yml`, and every other file of the folder is removed |
| `Maps.MapService.ScanMapFolder` | services/map.go:60-89 | a folder name without '-' panics before its files are read; otherwise the record is made and the folder stripped |
| `Maps.MapService.ScanFormat` | services/map.go:53-95 | the format scan succeeds exactly when every folder name has a '-', returning the records and stripping every folder; otherwise it panics at the first dashless folder in name order, after stripping the folders before it |
| `Maps.MapService.ScanMiniGame` | services/map.go:46-101 | the same for a minigame: records of all formats, or a panic after the folders before the first dashless one |
| `Maps.MapService.ScanTree` | services/map.go:46-102 | the same for the whole tree: the records of every minigame, or a panic at the first dashless folder in name order |
| `Maps.MapService.DeleteMapIfStale` | services/map.go:134-145 | one catalog comparison removes the record's path when it is stale |
| `Maps.MapService.DeleteMaps` | services/map.go:132-151 | the map loop removes exactly the folder removals of the format |
| `Maps.MapService.DeleteFormat` | services/map.go:125-159 | one local format is compared with every catalog format, or removed when none has its name |
| `Maps.MapService.DeleteFormats` | services/map.go:124-160 | the format loop removes the format removals |
| `Maps.MapService.DeleteMiniGame` | services/map.go:117-167 | one local minigame is compared with every catalog minigame, or removed when none has its name |
| `Maps.MapService.DeleteOldAndWrongMaps` | services/map.go:115-171 | the tree becomes the old tree with exactly `Removals` of the scan and the catalog removed, and nothing is downloaded |
| `Maps.MapService.AddMapIfMissing` | services/map.go:177-191 | a present versioned folder is skipped; otherwise the world and then the config are fetched, stopping at the first unserved one, and `UpdateMap` writes both |
| `Maps.MapService.AddFormatMaps` | services/map.go:176-192 | the map loop ends in the outcome, tree and downloads of `AddAll` over the format's maps |
| `Maps.MapService.AddMiniGameMaps` | services/map.go:175-193 | the format loop ends as `AddAll` over the minigame's maps |
| `Maps.MapService.AddNewMaps` | services/map.go:173-198 | `addNewMaps` ends as `AddAll` over every catalog map, in catalog order |
| `Maps.MapService.UpdateMaps` | services/map.go:23-113 | a catalog error or a map without versions returns before the directory is read; an empty directory gets the additions twice, falling through; otherwise the scan panics at a dashless folder or is followed by the removals and the additions |
| `Maps.EmptyOnce` | services/map.go:36-44 | on an empty directory the fall-through round changes and fetches nothing when names do not collide, so the pass is one round of additions |
| `Maps.ReconciledInstalls` | services/map.go:104-110 | after a pass that ends without error every catalog map is installed in its versioned folder, when names do not collide |

## Left out

- Failures of the operating system (`os.ReadDir`, `os.RemoveAll`, `os.Create`, `MkdirAll`, `Write`) are not modelled: every disk operation succeeds.
- File contents and permissions are not modelled: the directory is a set of names, and writing a file adds its name.
- HTTP and JSON decoding are not modelled: the catalog is the decoded response, passed in, and a download succeeds exactly when its request is in `served`. Transport errors are not distinguished from a non-200 status.
- The go-version library is not part of this model: the version order is an abstract total preorder and `String()` an abstract rendering. Versions that fail to parse (nil entries in the sorted slice) are not modelled.
- `Plugins.PluginService.Apply`: the map order Go uses to range over the local versions is unspecified, so the contract allows any skip decision that some order gives, rather than the one a run makes.
- The maps directory is modelled as a tree of three directory levels over map folders that hold files; an entry at a directory level is taken to be a directory, and files inside map folders are taken to be files.
- `os.Stat` errors other than "does not exist" are not modelled: a present versioned folder is skipped and an absent one is fetched.
- A nil `*[]byte` from a download is not modelled apart from its error: a failed download returns before `UpdateMap`, so `UpdateMap` always writes both files in a pass. `Maps.MapService.UpdateMap` still takes the two flags.
- The nested Go loops of `UpdateMaps`, `deleteOldAndWrongMaps` and `addNewMaps` are one method per nesting level, each proved against a function of the old tree.
- The service's paths and file contents (`world.rar` and `map.yml` bytes) are not modelled: a written file is present by name.
- A Go panic (a slice index out of range) is modelled as an ordinary returned outcome `Fail(IndexOutOfRange)` with the directory as it stood at that point, not as an unwinding crash of the process.

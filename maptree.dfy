/** The maps directory: `<minigame>/<format>/<map>-<version>/<file>`. The
    three upper levels are directories, the fourth holds files. The tree is
    modelled as nested maps from names to the level below. */
module MapTree {
  import opened Listing

  type Files = set<string>
  type FormatDir = map<string, Files>
  type MiniGameDir = map<string, FormatDir>
  type Tree = map<string, MiniGameDir>

  /** The two files a map folder should hold. */
  const World: string := "world.rar"
  const Config: string := "map.yml"

  /** The folder name a map version is stored under. */
  function FolderName(name: string, version: string): string
  {
    name + "-" + version
  }

  /** A path `os.RemoveAll` is called on. */
  datatype Path =
    | MiniGamePath(minigame: string)
    | FormatPath(minigame: string, format: string)
    | FolderPath(minigame: string, format: string, folder: string)

  /** A map folder of the tree, by its three names. */
  datatype Folder = Folder(minigame: string, format: string, name: string)

  predicate HasFolder(t: Tree, x: Folder)
  {
    x.minigame in t && x.format in t[x.minigame] && x.name in t[x.minigame][x.format]
  }

  /** The files of a folder of the tree. */
  function FilesOf(t: Tree, x: Folder): Files
    requires HasFolder(t, x)
  {
    t[x.minigame][x.format][x.name]
  }

  // ---------------------------------------------------------------------
  // Removal
  // ---------------------------------------------------------------------

  /** os.RemoveAll of one path; removing a missing path does nothing. */
  function Remove(t: Tree, p: Path): Tree
  {
    match p
    case MiniGamePath(mg) => t - {mg}
    case FormatPath(mg, f) => if mg in t then t[mg := t[mg] - {f}] else t
    case FolderPath(mg, f, k) =>
      if mg in t && f in t[mg] then t[mg := t[mg][f := t[mg][f] - {k}]] else t
  }

  /** The tree after os.RemoveAll of every path of P, in any order. */
  function Prune(t: Tree, P: set<Path>): Tree
  {
    map mg | mg in t && MiniGamePath(mg) !in P ::
      map f | f in t[mg] && FormatPath(mg, f) !in P ::
        map k | k in t[mg][f] && FolderPath(mg, f, k) !in P :: t[mg][f][k]
  }

  /** A folder survives pruning exactly when none of its three paths is
      pruned, and then its files are unchanged. */
  lemma PruneFolder(t: Tree, P: set<Path>, x: Folder)
    ensures HasFolder(Prune(t, P), x) <==>
              && HasFolder(t, x)
              && MiniGamePath(x.minigame) !in P
              && FormatPath(x.minigame, x.format) !in P
              && FolderPath(x.minigame, x.format, x.name) !in P
    ensures HasFolder(Prune(t, P), x) ==> FilesOf(Prune(t, P), x) == FilesOf(t, x)
  {
  }

  lemma PruneNothing(t: Tree)
    ensures Prune(t, {}) == t
  {
    forall mg | mg in t
      ensures Prune(t, {})[mg] == t[mg]
    {
      forall f | f in t[mg]
        ensures Prune(t, {})[mg][f] == t[mg][f]
      {
      }
    }
  }

  /** Removing one more path extends the pruned set. */
  lemma RemovePruned(t: Tree, P: set<Path>, p: Path)
    ensures Remove(Prune(t, P), p) == Prune(t, P + {p})
  {
    Remove1(Prune(t, P), p);
    PruneTwice(t, P, {p});
  }

  /** Removing one path is pruning it. */
  lemma Remove1(t: Tree, p: Path)
    ensures Remove(t, p) == Prune(t, {p})
  {
    match p
    case MiniGamePath(m) => RemoveMiniGame(t, m);
    case FormatPath(m, g) => RemoveFormat(t, m, g);
    case FolderPath(m, g, k) => RemoveFolder(t, m, g, k);
  }

  lemma RemoveMiniGame(t: Tree, m: string)
    ensures t - {m} == Prune(t, {MiniGamePath(m)})
  {
    var a := t - {m};
    var b := Prune(t, {MiniGamePath(m)});
    assert a.Keys == b.Keys;
    forall mg | mg in a
      ensures a[mg] == b[mg]
    {
      forall f | f in a[mg]
        ensures a[mg][f] == b[mg][f]
      {
      }
    }
  }

  lemma RemoveFormat(t: Tree, m: string, g: string)
    ensures Remove(t, FormatPath(m, g)) == Prune(t, {FormatPath(m, g)})
  {
    var a := Remove(t, FormatPath(m, g));
    var b := Prune(t, {FormatPath(m, g)});
    assert a.Keys == b.Keys;
    forall mg | mg in a
      ensures a[mg] == b[mg]
    {
      assert a[mg].Keys == b[mg].Keys;
      forall f | f in a[mg]
        ensures a[mg][f] == b[mg][f]
      {
      }
    }
  }

  lemma RemoveFolder(t: Tree, m: string, g: string, k: string)
    ensures Remove(t, FolderPath(m, g, k)) == Prune(t, {FolderPath(m, g, k)})
  {
    var a := Remove(t, FolderPath(m, g, k));
    var b := Prune(t, {FolderPath(m, g, k)});
    assert a.Keys == b.Keys;
    forall mg | mg in a
      ensures a[mg] == b[mg]
    {
      assert a[mg].Keys == b[mg].Keys;
      forall f | f in a[mg]
        ensures a[mg][f] == b[mg][f]
      {
        assert a[mg][f].Keys == b[mg][f].Keys;
      }
    }
  }

  /** Pruning twice prunes the union. */
  lemma PruneTwice(t: Tree, P: set<Path>, Q: set<Path>)
    ensures Prune(Prune(t, P), Q) == Prune(t, P + Q)
  {
    var a := Prune(Prune(t, P), Q);
    var b := Prune(t, P + Q);
    forall mg | mg in a
      ensures a[mg] == b[mg]
    {
      forall f | f in a[mg]
        ensures a[mg][f] == b[mg][f]
      {
      }
    }
  }

  // ---------------------------------------------------------------------
  // Writing
  // ---------------------------------------------------------------------

  /** os.MkdirAll of a folder, then os.Create of one file in it. */
  function Put(t: Tree, x: Folder, file: string): Tree
  {
    var gm := if x.minigame in t then t[x.minigame] else map[];
    var fm := if x.format in gm then gm[x.format] else map[];
    var files := if x.name in fm then fm[x.name] else {};
    t[x.minigame := gm[x.format := fm[x.name := files + {file}]]]
  }

  /** Creating a file creates its folder when missing, adds the file, and
      leaves every other folder as it was. */
  lemma PutEffect(t: Tree, x: Folder, file: string)
    ensures var r := Put(t, x, file);
      && HasFolder(r, x) && FilesOf(r, x) == (if HasFolder(t, x) then FilesOf(t, x) else {}) + {file}
      && (forall y :: y != x ==> (HasFolder(r, y) <==> HasFolder(t, y)))
      && (forall y :: y != x && HasFolder(t, y) ==> FilesOf(r, y) == FilesOf(t, y))
  {
  }

  /** UpdateMap: DeleteMap of the unversioned folder `name`, then, inside
      `name-version`, world.rar when the world bytes are present and then
      map.yml when the config bytes are present. */
  function WriteMap(t: Tree, minigame: string, format: string, name: string, version: string,
                    world: bool, config: bool): Tree
  {
    var x := Folder(minigame, format, FolderName(name, version));
    var t1 := Remove(t, FolderPath(minigame, format, name));
    var t2 := if world then Put(t1, x, World) else t1;
    if config then Put(t2, x, Config) else t2
  }

  /** What UpdateMap leaves: the unversioned folder is gone (unless it is the
      versioned one), the versioned folder holds what it held plus the files
      whose bytes were given, and every other folder is as it was. */
  lemma WriteMapEffect(t: Tree, minigame: string, format: string, name: string, version: string,
                       world: bool, config: bool)
    ensures var r := WriteMap(t, minigame, format, name, version, world, config);
      var x := Folder(minigame, format, FolderName(name, version));
      var u := Folder(minigame, format, name);
      && (world || config ==> HasFolder(r, x))
      && (world || config ==>
            FilesOf(r, x) == (if HasFolder(t, x) && x != u then FilesOf(t, x) else {})
                             + (if world then {World} else {}) + (if config then {Config} else {}))
      && (!world && !config ==> r == Remove(t, FolderPath(minigame, format, name)))
      && (u != x ==> !HasFolder(r, u))
      && (forall y :: y != x && y != u ==> (HasFolder(r, y) <==> HasFolder(t, y)))
      && (forall y :: y != x && y != u && HasFolder(t, y) ==> FilesOf(r, y) == FilesOf(t, y))
  {
    var x := Folder(minigame, format, FolderName(name, version));
    var t1 := Remove(t, FolderPath(minigame, format, name));
    var t2 := if world then Put(t1, x, World) else t1;
    PutEffect(t1, x, World);
    PutEffect(t2, x, Config);
  }

  // ---------------------------------------------------------------------
  // Stripping the map folders
  // ---------------------------------------------------------------------

  /** The files the scan keeps in a map folder: it removes every other. */
  function Strip(files: Files): (r: Files)
    ensures forall x :: x in r <==> x in files && (x == World || x == Config)
  {
    files * {World, Config}
  }

  /** The tree with the folders of `done` stripped. */
  function StripSome(t: Tree, done: set<Folder>): Tree
  {
    map mg | mg in t ::
      map f | f in t[mg] ::
        map k | k in t[mg][f] :: if Folder(mg, f, k) in done then Strip(t[mg][f][k]) else t[mg][f][k]
  }

  /** Stripping keeps every folder and changes only the files of those in
      `done`. */
  lemma StripSomeFolder(t: Tree, done: set<Folder>, x: Folder)
    ensures HasFolder(StripSome(t, done), x) <==> HasFolder(t, x)
    ensures HasFolder(t, x) ==>
              FilesOf(StripSome(t, done), x) == if x in done then Strip(FilesOf(t, x)) else FilesOf(t, x)
  {
  }

  lemma StripNothing(t: Tree)
    ensures StripSome(t, {}) == t
  {
    forall mg | mg in t
      ensures StripSome(t, {})[mg] == t[mg]
    {
      forall f | f in t[mg]
        ensures StripSome(t, {})[mg][f] == t[mg][f]
      {
      }
    }
  }

  /** Stripping twice strips the union: a stripped folder has nothing left
      to remove. */
  lemma StripTwice(t: Tree, A: set<Folder>, B: set<Folder>)
    ensures StripSome(StripSome(t, A), B) == StripSome(t, A + B)
  {
    var a := StripSome(StripSome(t, A), B);
    var b := StripSome(t, A + B);
    forall mg | mg in a
      ensures a[mg] == b[mg]
    {
      forall f | f in a[mg]
        ensures a[mg][f] == b[mg][f]
      {
      }
    }
  }

  /** Stripping one folder of the tree. */
  lemma StripOne(t: Tree, x: Folder)
    requires HasFolder(t, x)
    ensures StripSome(t, {x}) ==
              t[x.minigame := t[x.minigame][x.format := t[x.minigame][x.format][x.name := Strip(FilesOf(t, x))]]]
  {
    var a := StripSome(t, {x});
    var b := t[x.minigame := t[x.minigame][x.format := t[x.minigame][x.format][x.name := Strip(FilesOf(t, x))]]];
    forall mg | mg in a
      ensures a[mg] == b[mg]
    {
      forall f | f in a[mg]
        ensures a[mg][f] == b[mg][f]
      {
      }
    }
  }

  /** Every folder of the tree. */
  function AllFolders(t: Tree): set<Folder>
  {
    set mg, f, k | mg in t && f in t[mg] && k in t[mg][f] :: Folder(mg, f, k)
  }

  lemma AllFoldersIff(t: Tree, x: Folder)
    ensures x in AllFolders(t) <==> HasFolder(t, x)
  {
    if HasFolder(t, x) {
      assert Folder(x.minigame, x.format, x.name) == x;
    }
  }

  /** The traversal order of the scan: minigames in name order, then
      formats, then folders. */
  predicate FolderLess(x: Folder, y: Folder)
  {
    || Less(x.minigame, y.minigame)
    || (x.minigame == y.minigame && Less(x.format, y.format))
    || (x.minigame == y.minigame && x.format == y.format && Less(x.name, y.name))
  }

  /** The map folders of one format directory. */
  function FormatFolders(t: Tree, minigame: string, format: string): set<Folder>
    requires minigame in t && format in t[minigame]
  {
    set k | k in t[minigame][format] :: Folder(minigame, format, k)
  }

  /** The map folders of one minigame directory. */
  function MiniGameFolders(t: Tree, minigame: string): set<Folder>
    requires minigame in t
  {
    set f, k | f in t[minigame] && k in t[minigame][f] :: Folder(minigame, f, k)
  }

  /** c is the first folder of S, in traversal order, whose name has no '-'. */
  ghost predicate FirstDashless(S: set<Folder>, c: Folder)
  {
    && c in S
    && '-' !in c.name
    && forall x :: x in S && FolderLess(x, c) ==> '-' in x.name
  }

  /** The folders of S before c in traversal order. */
  function Before(S: set<Folder>, c: Folder): set<Folder>
  {
    set x | x in S && FolderLess(x, c)
  }

  /** The tree with the files of one folder replaced. */
  function SetFiles(t: Tree, x: Folder, files: Files): Tree
    requires HasFolder(t, x)
  {
    t[x.minigame := t[x.minigame][x.format := t[x.minigame][x.format][x.name := files]]]
  }

  /** Replacing a folder's files by its own files changes nothing. */
  lemma SetFilesSame(t: Tree, x: Folder)
    requires HasFolder(t, x)
    ensures SetFiles(t, x, FilesOf(t, x)) == t
  {
    assert t[x.minigame][x.format][x.name := FilesOf(t, x)] == t[x.minigame][x.format];
    assert t[x.minigame][x.format := t[x.minigame][x.format]] == t[x.minigame];
  }

  /** Replacing a folder's files twice keeps the second replacement, and
      the folder then holds exactly those files. */
  lemma SetFilesTwice(t: Tree, x: Folder, a: Files, b: Files)
    requires HasFolder(t, x)
    ensures HasFolder(SetFiles(t, x, a), x) && FilesOf(SetFiles(t, x, a), x) == a
    ensures SetFiles(SetFiles(t, x, a), x, b) == SetFiles(t, x, b)
  {
    var fm := t[x.minigame][x.format];
    var t1 := SetFiles(t, x, a);
    assert t1[x.minigame][x.format] == fm[x.name := a];
    assert fm[x.name := a][x.name := b] == fm[x.name := b];
    assert t1[x.minigame][x.format := fm[x.name := b]] == t[x.minigame][x.format := fm[x.name := b]];
  }

  /** Stripping folders of other directories leaves a format directory as
      it was. */
  lemma StripElsewhere(t: Tree, done: set<Folder>, minigame: string, format: string)
    requires minigame in t && format in t[minigame]
    requires forall x :: x in done ==> x.minigame != minigame || x.format != format
    ensures StripSome(t, done)[minigame][format] == t[minigame][format]
  {
  }

  /** Stripping folders of other minigames leaves a minigame directory as
      it was. */
  lemma StripElsewhereMiniGame(t: Tree, done: set<Folder>, minigame: string)
    requires minigame in t
    requires forall x :: x in done ==> x.minigame != minigame
    ensures StripSome(t, done)[minigame] == t[minigame]
  {
    var a := StripSome(t, done)[minigame];
    forall f | f in a
      ensures a[f] == t[minigame][f]
    {
    }
  }
}

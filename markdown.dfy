/** The report data behind the Markdown summary (`markdown.go`): its own
    variants of the largest modules (root included, with a file count), the
    largest files, the files per checksum, the ten-row tables, the rows of
    the duplicate table and the duplicate renditions across asset catalogs.
    Writing the text itself, the percentages and the file are outside this
    model. */
module Markdown {
  import opened Seqs
  import opened Text
  import opened FileSystem
  import opened TreeWalk
  import opened FileUtils
  import opened CarCatalog

  // ------------------------------------------------------------ largest modules

  /** A module row: the directory's path, the bytes of its direct leaves and
      how many direct leaves it has. */
  datatype ModuleWithSize = ModuleWithSize(path: string, size: int, fileCount: int)

  function ModuleSize(m: ModuleWithSize): int { m.size }

  /** The number of leaves directly inside `f`. */
  function DirectLeafCount(f: FileInfo): nat
  {
    |Filter(f.children, IsLeaf)|
  }

  /** The row reported for a module directory. */
  function ModuleRow(f: FileInfo): ModuleWithSize
  {
    ModuleWithSize(f.relativePath, DirectLeafSize(f), DirectLeafCount(f))
  }

  /** The `traverse` closure of `findLargestModules`: the rows of the modules
      of `t`'s subtree in postorder, each directory after those below it. */
  method ModuleTraverse(t: FileInfo) returns (r: seq<ModuleWithSize>)
    ensures r == GatherPost(t, IsModule, ModuleRow)
    decreases t
  {
    r := [];
    if t.children != [] {
      var fileCount := 0;
      var totalSize := 0;
      var k := 0;
      assert t.children[..0] == [];
      while k < |t.children|
        invariant 0 <= k <= |t.children|
        invariant fileCount == |Filter(t.children[..k], IsLeaf)|
        invariant totalSize == SumBy(Filter(t.children[..k], IsLeaf), SizeOf)
        invariant r == GatherPostOf(t, IsModule, ModuleRow, k)
      {
        var child := t.children[k];
        DirectLeafStep(t.children, k);
        DirectCountStep(t.children, k);
        if child.children == [] {
          fileCount := fileCount + 1;
          totalSize := totalSize + child.size;
        }
        var sub := ModuleTraverse(child);
        r := r + sub;
        k := k + 1;
      }
      assert t.children[..k] == t.children;
      if totalSize > 0 {
        r := r + [ModuleWithSize(t.relativePath, totalSize, fileCount)];
      }
    }
  }

  /** The number of leaves among the first `k + 1` children. */
  lemma DirectCountStep(cs: seq<FileInfo>, k: nat)
    requires k < |cs|
    ensures |Filter(cs[..k + 1], IsLeaf)| == |Filter(cs[..k], IsLeaf)| + (if IsLeaf(cs[k]) then 1 else 0)
  {
    assert cs[..k + 1][..k] == cs[..k];
  }

  /** The rows of every module of the tree, the root included, largest first. */
  method FindLargestModules(root: FileInfo) returns (modules: seq<ModuleWithSize>)
    ensures multiset(modules) == multiset(Map(Filter(Subtrees(root), IsModule), ModuleRow))
    ensures SortedDesc(modules, ModuleSize)
  {
    var found := ModuleTraverse(root);
    GatherPostSpec(root, IsModule, ModuleRow);
    PostorderPermutation(root);
    FilterPermutation(Postorder(root), Subtrees(root), IsModule);
    MapPermutation(Filter(Postorder(root), IsModule), Filter(Subtrees(root), IsModule), ModuleRow);
    modules := SortedCopy(found, ModuleSize);
  }

  /** Unlike the module list of `fileutils.go`, this one reports the root
      whenever the root is a module; every row has a positive size and at
      least one file. */
  lemma ModuleRows(root: FileInfo)
    ensures IsModule(root) ==> ModuleRow(root) in Map(Filter(Subtrees(root), IsModule), ModuleRow)
    ensures forall m :: m in Map(Filter(Subtrees(root), IsModule), ModuleRow) ==> m.size > 0 && m.fileCount >= 1
  {
    var kept := Filter(Subtrees(root), IsModule);
    if IsModule(root) {
      FilterMembers(Subtrees(root), IsModule, root);
      var i :| 0 <= i < |kept| && kept[i] == root;
      assert Map(kept, ModuleRow)[i] == ModuleRow(root);
    }
    forall m | m in Map(kept, ModuleRow)
      ensures m.size > 0 && m.fileCount >= 1
    {
      var i :| 0 <= i < |kept| && Map(kept, ModuleRow)[i] == m;
      FilterMembers(Subtrees(root), IsModule, kept[i]);
    }
  }

  // ------------------------------------------------------------ largest files

  /** A file row: its path and size. */
  datatype FileWithSize = FileWithSize(path: string, size: int)

  function FileSize(f: FileWithSize): int { f.size }

  function AsFileWithSize(f: FileInfo): FileWithSize
  {
    FileWithSize(f.relativePath, f.size)
  }

  /** The path and size of every leaf with a positive size, largest first. */
  method FindLargestFiles(root: FileInfo) returns (files: seq<FileWithSize>)
    ensures multiset(files) == multiset(Map(Filter(Subtrees(root), IsSizedLeaf), AsFileWithSize))
    ensures SortedDesc(files, FileSize)
  {
    var found := Collect(root, IsSizedLeaf, AsFileWithSize);
    GatherSpec(root, IsSizedLeaf, AsFileWithSize);
    files := SortedCopy(found, FileSize);
  }

  /** The file rows add up to the root's size when the tree is consistent
      and has no negative sizes. */
  lemma LargestFilesTotal(root: FileInfo)
    requires WellSized(root) && NoNegativeSizes(Subtrees(root))
    ensures SumBy(Map(Filter(Subtrees(root), IsSizedLeaf), AsFileWithSize), FileSize) == root.size
  {
    var sized := Filter(Subtrees(root), IsSizedLeaf);
    RowSizes(sized);
    SizedLeafTotal(Subtrees(root));
    LeafSum(root);
  }

  /** Rows carry the sizes of their files. */
  lemma {:induction false} RowSizes(s: seq<FileInfo>)
    ensures SumBy(Map(s, AsFileWithSize), FileSize) == SumBy(s, SizeOf)
  {
    if s != [] {
      var n := |s| - 1;
      RowSizes(s[..n]);
      assert Map(s, AsFileWithSize)[..n] == Map(s[..n], AsFileWithSize);
    }
  }

  // ------------------------------------------------------------ files per checksum

  function PathOf(f: FileInfo): string { f.relativePath }

  /** `findDuplicateFiles`: every leaf with a checksum, grouped by checksum in
      walk order. Checksums with a single file are kept. */
  method FindDuplicateFiles(root: FileInfo) returns (dups: map<string, seq<FileInfo>>)
    ensures forall s :: s in dups <==> exists i :: 0 <= i < |Hashed(root)| && Hashed(root)[i].shasum == s
    ensures forall s :: s in dups ==> dups[s] == Bucket(Hashed(root), ShasumOf, Id, s)
  {
    dups := GroupCollect(root, IsHashedLeaf, ShasumOf, Id, map[]);
    GroupTreeSpec(map[], root, IsHashedLeaf, ShasumOf, Id);
    forall s
      ensures s in dups <==> exists i :: 0 <= i < |Hashed(root)| && Hashed(root)[i].shasum == s
      ensures s in dups ==> dups[s] == Bucket(Hashed(root), ShasumOf, Id, s)
    {
      GroupByBuckets(map[], Hashed(root), ShasumOf, Id, s);
      BucketNonEmpty(Hashed(root), ShasumOf, Id, s);
    }
  }

  /** A file listed under a checksum is a leaf carrying that checksum. */
  lemma CheckedFile(root: FileInfo, s: string, f: FileInfo)
    requires f in Bucket(Hashed(root), ShasumOf, Id, s)
    ensures f in Subtrees(root) && f.children == [] && f.shasum == s && s != ""
  {
    BucketMembers(Hashed(root), ShasumOf, Id, s, f);
    var i :| 0 <= i < |Hashed(root)| && Hashed(root)[i].shasum == s && Hashed(root)[i] == f;
    FilterMembers(Subtrees(root), IsHashedLeaf, f);
  }

  /** `getRelativePaths`: the path of each file, in order. */
  method GetRelativePaths(files: seq<FileInfo>) returns (paths: seq<string>)
    ensures |paths| == |files|
    ensures forall i :: 0 <= i < |files| ==> paths[i] == files[i].relativePath
  {
    var a := new string[|files|];
    for i := 0 to |files|
      invariant forall j :: 0 <= j < i ==> a[j] == files[j].relativePath
    {
      a[i] := files[i].relativePath;
    }
    paths := a[..];
  }

  // ------------------------------------------------------------ tables

  /** The number of rows the module and file tables show. */
  const TableRows: nat := 10

  /** The rows a table shows: a loop over `rows` that stops at index ten. */
  method ShownRows<T>(rows: seq<T>) returns (shown: seq<T>)
    ensures |shown| == if |rows| < TableRows then |rows| else TableRows
    ensures shown == rows[..|shown|]
  {
    shown := [];
    var i := 0;
    while i < |rows|
      invariant 0 <= i <= |rows| && i <= TableRows
      invariant shown == rows[..i]
    {
      if i >= TableRows {
        break;
      }
      shown := shown + [rows[i]];
      i := i + 1;
    }
  }

  /** A row of the duplicate table: the first eight digits of the checksum,
      the size of the first file, the number of files and their paths. */
  datatype DuplicateRow = DuplicateRow(hashPrefix: string, size: int, occurrences: int, paths: seq<string>)

  /** The loop over the checksum map: a row for each checksum with more than
      one file, in the order the map hands out its keys (`keys`). Go slices
      the checksum's first eight bytes, so a shorter one would panic. */
  method DuplicateRows(dups: map<string, seq<FileInfo>>) returns (rows: seq<DuplicateRow>, ghost keys: seq<string>)
    requires forall s :: s in dups && |dups[s]| > 1 ==> |s| >= 8
    ensures forall s :: s in keys <==> s in dups && |dups[s]| > 1
    ensures forall i, j :: 0 <= i < j < |keys| ==> keys[i] != keys[j]
    ensures |rows| == |keys|
    ensures forall i :: 0 <= i < |rows| ==>
      && keys[i] in dups && |keys[i]| >= 8 && |dups[keys[i]]| > 1
      && rows[i] == DuplicateRow(keys[i][..8], dups[keys[i]][0].size, |dups[keys[i]]|, Map(dups[keys[i]], PathOf))
  {
    var ks := MapKeys(dups);
    rows := [];
    keys := [];
    for n := 0 to |ks|
      invariant |rows| == |keys|
      invariant forall s :: s in keys <==> s in ks[..n] && |dups[s]| > 1
      invariant forall i, j :: 0 <= i < j < |keys| ==> keys[i] != keys[j]
      invariant forall i :: 0 <= i < |rows| ==>
        && keys[i] in dups && |keys[i]| >= 8 && |dups[keys[i]]| > 1
        && rows[i] == DuplicateRow(keys[i][..8], dups[keys[i]][0].size, |dups[keys[i]]|, Map(dups[keys[i]], PathOf))
    {
      var shasum := ks[n];
      var files := dups[shasum];
      assert ks[..n + 1] == ks[..n] + [shasum];
      if |files| > 1 {
        var paths := GetRelativePaths(files);
        assert paths == Map(files, PathOf);
        assert shasum !in ks[..n];
        rows := rows + [DuplicateRow(shasum[..8], files[0].size, |files|, paths)];
        keys := keys + [shasum];
      }
    }
    assert ks[..|ks|] == ks;
  }

  /** The rows of the "File System Duplicates" table: one per checksum that
      more than one leaf carries, with all those leaves. */
  method FileSystemDuplicates(root: FileInfo) returns (rows: seq<DuplicateRow>, ghost keys: seq<string>)
    requires forall s :: |Bucket(Hashed(root), ShasumOf, Id, s)| > 1 ==> |s| >= 8
    ensures forall s :: s in keys <==> |Bucket(Hashed(root), ShasumOf, Id, s)| > 1
    ensures forall i, j :: 0 <= i < j < |keys| ==> keys[i] != keys[j]
    ensures |rows| == |keys|
    ensures forall i :: 0 <= i < |rows| ==>
      var files := Bucket(Hashed(root), ShasumOf, Id, keys[i]);
      && |keys[i]| >= 8 && |files| > 1
      && rows[i] == DuplicateRow(keys[i][..8], files[0].size, |files|, Map(files, PathOf))
  {
    var dups := FindDuplicateFiles(root);
    forall s | |Bucket(Hashed(root), ShasumOf, Id, s)| > 1
      ensures s in dups
    {
      BucketNonEmpty(Hashed(root), ShasumOf, Id, s);
    }
    rows, keys := DuplicateRows(dups);
  }

  /** Every leaf of a built tree that carries a checksum carries 64 hex
      digits, so the table never slices past the end of a checksum. */
  lemma BuiltChecksumsLongEnough(root: FileInfo)
    requires HexChecksums(root)
    ensures forall i :: 0 <= i < |Hashed(root)| ==> |Hashed(root)[i].shasum| == 64
    ensures forall s :: |Bucket(Hashed(root), ShasumOf, Id, s)| > 1 ==> |s| == 64
  {
    SubtreesHexChecksums(root);
    forall i | 0 <= i < |Hashed(root)|
      ensures |Hashed(root)[i].shasum| == 64
    {
      FilterMembers(Subtrees(root), IsHashedLeaf, Hashed(root)[i]);
    }
    forall s | |Bucket(Hashed(root), ShasumOf, Id, s)| > 1
      ensures |s| == 64
    {
      BucketNonEmpty(Hashed(root), ShasumOf, Id, s);
    }
  }

  /** The checksum property holds at every node of the tree. */
  lemma {:induction false} SubtreesHexChecksums(t: FileInfo)
    requires HexChecksums(t)
    ensures forall f :: f in Subtrees(t) ==> HexChecksums(f)
    decreases t, 1
  {
    SubtreesOfHexChecksums(t, |t.children|);
  }

  lemma {:induction false} SubtreesOfHexChecksums(t: FileInfo, k: nat)
    requires HexChecksums(t) && k <= |t.children|
    ensures forall f :: f in SubtreesOf(t, k) ==> HexChecksums(f)
    decreases t, 0, k
  {
    if k > 0 {
      SubtreesOfHexChecksums(t, k - 1);
      SubtreesHexChecksums(t.children[k - 1]);
    }
  }

  // ------------------------------------------------------------ asset catalog duplicates

  /** One rendition seen by the asset loop: its `name:shasum` key, its
      `path (rendition)` location and its size. */
  datatype AssetEntry = AssetEntry(key: string, location: string, size: int)

  function EntryKey(e: AssetEntry): string { e.key }

  function EntryLocation(e: AssetEntry): string { e.location }

  function EntrySize(e: AssetEntry): int { e.size }

  /** The key `"%s:%s"` of an asset name and a rendition checksum. */
  function AssetKey(name: string, shasum: string): string
  {
    name + ":" + shasum
  }

  /** The location `"%s (%s)"` of a rendition in a catalog. */
  function Location(path: string, renditionName: string): string
  {
    path + " (" + renditionName + ")"
  }

  function EntryOf(path: string, name: string, r: RenditionInfo): AssetEntry
  {
    AssetEntry(AssetKey(name, r.shasum), Location(path, r.renditionName), r.size)
  }

  /** The entries of the renditions with a checksum, in order. */
  function RenditionEntries(path: string, name: string, rs: seq<RenditionInfo>): seq<AssetEntry>
  {
    if rs == [] then []
    else
      var r := rs[|rs| - 1];
      RenditionEntries(path, name, rs[..|rs| - 1]) + (if r.shasum != "" then [EntryOf(path, name, r)] else [])
  }

  /** The entries of the assets of one catalog, asset by asset. */
  function AssetEntries(path: string, assets: seq<AssetInfo>): seq<AssetEntry>
  {
    if assets == [] then []
    else
      var a := assets[|assets| - 1];
      AssetEntries(path, assets[..|assets| - 1]) + RenditionEntries(path, a.name, a.renditions)
  }

  /** The entries of all catalogs, catalog by catalog. */
  function CarEntries(cars: seq<CarFileInfo>): seq<AssetEntry>
  {
    if cars == [] then []
    else
      var c := cars[|cars| - 1];
      CarEntries(cars[..|cars| - 1]) + AssetEntries(c.path, c.assets)
  }

  /** The innermost loop: each rendition with a checksum appends its
      location under its key and overwrites the key's size. */
  method RecordRenditions(locs: map<string, seq<string>>, sizes: map<string, int>, path: string, name: string, rs: seq<RenditionInfo>)
    returns (locs': map<string, seq<string>>, sizes': map<string, int>)
    ensures locs' == GroupBy(locs, RenditionEntries(path, name, rs), EntryKey, EntryLocation)
    ensures sizes' == Assign(sizes, RenditionEntries(path, name, rs), EntryKey, EntrySize)
  {
    locs', sizes' := locs, sizes;
    for k := 0 to |rs|
      invariant locs' == GroupBy(locs, RenditionEntries(path, name, rs[..k]), EntryKey, EntryLocation)
      invariant sizes' == Assign(sizes, RenditionEntries(path, name, rs[..k]), EntryKey, EntrySize)
    {
      var r := rs[k];
      RenditionStep(locs, sizes, path, name, rs, k);
      if r.shasum != "" {
        var key := name + ":" + r.shasum;
        locs' := locs'[key := (if key in locs' then locs'[key] else []) + [path + " (" + r.renditionName + ")"]];
        sizes' := sizes'[key := r.size];
      }
    }
    assert rs[..|rs|] == rs;
  }

  /** One turn of the innermost loop, on the maps it builds. */
  lemma RenditionStep(locs: map<string, seq<string>>, sizes: map<string, int>, path: string, name: string, rs: seq<RenditionInfo>, k: nat)
    requires k < |rs|
    ensures var before := RenditionEntries(path, name, rs[..k]);
      var g := GroupBy(locs, before, EntryKey, EntryLocation);
      var e := EntryOf(path, name, rs[k]);
      && GroupBy(locs, RenditionEntries(path, name, rs[..k + 1]), EntryKey, EntryLocation) ==
           (if rs[k].shasum != "" then g[e.key := (if e.key in g then g[e.key] else []) + [e.location]] else g)
      && Assign(sizes, RenditionEntries(path, name, rs[..k + 1]), EntryKey, EntrySize) ==
           (if rs[k].shasum != "" then Assign(sizes, before, EntryKey, EntrySize)[e.key := e.size]
            else Assign(sizes, before, EntryKey, EntrySize))
  {
    var before := RenditionEntries(path, name, rs[..k]);
    assert rs[..k + 1][..k] == rs[..k];
    var e := EntryOf(path, name, rs[k]);
    if rs[k].shasum != "" {
      assert RenditionEntries(path, name, rs[..k + 1]) == before + [e];
      assert (before + [e])[..|before|] == before;
      assert EntryKey(e) == e.key && EntryLocation(e) == e.location && EntrySize(e) == e.size;
    } else {
      assert RenditionEntries(path, name, rs[..k + 1]) == before;
    }
  }

  /** The middle loop, over the assets of one catalog. */
  method RecordAssets(locs: map<string, seq<string>>, sizes: map<string, int>, path: string, assets: seq<AssetInfo>)
    returns (locs': map<string, seq<string>>, sizes': map<string, int>)
    ensures locs' == GroupBy(locs, AssetEntries(path, assets), EntryKey, EntryLocation)
    ensures sizes' == Assign(sizes, AssetEntries(path, assets), EntryKey, EntrySize)
  {
    locs', sizes' := locs, sizes;
    for k := 0 to |assets|
      invariant locs' == GroupBy(locs, AssetEntries(path, assets[..k]), EntryKey, EntryLocation)
      invariant sizes' == Assign(sizes, AssetEntries(path, assets[..k]), EntryKey, EntrySize)
    {
      var a := assets[k];
      assert assets[..k + 1][..k] == assets[..k];
      var before := AssetEntries(path, assets[..k]);
      var added := RenditionEntries(path, a.name, a.renditions);
      GroupByConcat(locs, before, added, EntryKey, EntryLocation);
      AssignConcat(sizes, before, added, EntryKey, EntrySize);
      locs', sizes' := RecordRenditions(locs', sizes', path, a.name, a.renditions);
    }
    assert assets[..|assets|] == assets;
  }

  /** The outer loop, over the catalogs: the locations and the size kept for
      every key. */
  method RecordCatalogs(cars: seq<CarFileInfo>) returns (locs: map<string, seq<string>>, sizes: map<string, int>)
    ensures locs == GroupBy(map[], CarEntries(cars), EntryKey, EntryLocation)
    ensures sizes == Assign(map[], CarEntries(cars), EntryKey, EntrySize)
  {
    locs, sizes := map[], map[];
    for k := 0 to |cars|
      invariant locs == GroupBy(map[], CarEntries(cars[..k]), EntryKey, EntryLocation)
      invariant sizes == Assign(map[], CarEntries(cars[..k]), EntryKey, EntrySize)
    {
      var c := cars[k];
      assert cars[..k + 1][..k] == cars[..k];
      var before := CarEntries(cars[..k]);
      var added := AssetEntries(c.path, c.assets);
      GroupByConcat(map[], before, added, EntryKey, EntryLocation);
      AssignConcat(map[], before, added, EntryKey, EntrySize);
      locs, sizes := RecordAssets(locs, sizes, c.path, c.assets);
    }
    assert cars[..|cars|] == cars;
  }

  /** A row of the asset table: the shown name, the size, the number of
      locations and the locations. */
  datatype AssetRow = AssetRow(assetName: string, size: int, occurrences: int, locations: seq<string>)

  /** The size Go reads for a key: the stored one, or zero when absent. */
  function SizeAt(sizes: map<string, int>, key: string): int
  {
    if key in sizes then sizes[key] else 0
  }

  /** The loop over the location map: a row for every key with more than one
      location, in the order the map hands out its keys (`keys`). */
  method AssetRows(locs: map<string, seq<string>>, sizes: map<string, int>) returns (rows: seq<AssetRow>, ghost keys: seq<string>)
    ensures forall s :: s in keys <==> s in locs && |locs[s]| > 1
    ensures forall i, j :: 0 <= i < j < |keys| ==> keys[i] != keys[j]
    ensures |rows| == |keys|
    ensures forall i :: 0 <= i < |rows| ==>
      && keys[i] in locs
      && rows[i] == AssetRow(SplitName(keys[i]), SizeAt(sizes, keys[i]), |locs[keys[i]]|, locs[keys[i]])
  {
    var ks := MapKeys(locs);
    rows := [];
    keys := [];
    for n := 0 to |ks|
      invariant |rows| == |keys|
      invariant forall s :: s in keys <==> s in ks[..n] && |locs[s]| > 1
      invariant forall i, j :: 0 <= i < j < |keys| ==> keys[i] != keys[j]
      invariant forall i :: 0 <= i < |rows| ==>
        && keys[i] in locs
        && rows[i] == AssetRow(SplitName(keys[i]), SizeAt(sizes, keys[i]), |locs[keys[i]]|, locs[keys[i]])
    {
      var key := ks[n];
      var locations := locs[key];
      assert ks[..n + 1] == ks[..n] + [key];
      if |locations| > 1 {
        assert key !in ks[..n];
        var size := if key in sizes then sizes[key] else 0;
        rows := rows + [AssetRow(SplitName(key), size, |locations|, locations)];
        keys := keys + [key];
      }
    }
    assert ks[..|ks|] == ks;
  }

  /** The "Asset Catalog Duplicates" rows: one per `name:shasum` key seen at
      more than one location across the catalogs, with every location in
      catalog, asset and rendition order and the size of the last rendition
      seen under the key. */
  method AssetCatalogDuplicates(cars: seq<CarFileInfo>) returns (rows: seq<AssetRow>, ghost keys: seq<string>)
    ensures forall s :: s in keys <==> |Bucket(CarEntries(cars), EntryKey, EntryLocation, s)| > 1
    ensures forall i, j :: 0 <= i < j < |keys| ==> keys[i] != keys[j]
    ensures |rows| == |keys|
    ensures forall i :: 0 <= i < |rows| ==>
      var locations := Bucket(CarEntries(cars), EntryKey, EntryLocation, keys[i]);
      rows[i] == AssetRow(SplitName(keys[i]), SizeAt(Assign(map[], CarEntries(cars), EntryKey, EntrySize), keys[i]),
                          |locations|, locations)
  {
    var locs, sizes := RecordCatalogs(cars);
    forall s
      ensures s in locs <==> Bucket(CarEntries(cars), EntryKey, EntryLocation, s) != []
      ensures s in locs ==> locs[s] == Bucket(CarEntries(cars), EntryKey, EntryLocation, s)
    {
      GroupByBuckets(map[], CarEntries(cars), EntryKey, EntryLocation, s);
    }
    rows, keys := AssetRows(locs, sizes);
  }

  /** The size shown for a key is that of the last rendition seen under it. */
  lemma LastSizeShown(cars: seq<CarFileInfo>, j: nat)
    requires j < |CarEntries(cars)|
    requires forall i :: j < i < |CarEntries(cars)| ==> CarEntries(cars)[i].key != CarEntries(cars)[j].key
    ensures SizeAt(Assign(map[], CarEntries(cars), EntryKey, EntrySize), CarEntries(cars)[j].key) == CarEntries(cars)[j].size
  {
    AssignLast(map[], CarEntries(cars), EntryKey, EntrySize, CarEntries(cars)[j].key);
  }

  /** The entries of one asset are those of its renditions with a checksum. */
  lemma {:induction false} RenditionEntriesSpec(path: string, name: string, rs: seq<RenditionInfo>, e: AssetEntry)
    ensures e in RenditionEntries(path, name, rs) <==>
      exists k :: 0 <= k < |rs| && rs[k].shasum != "" && e == EntryOf(path, name, rs[k])
  {
    if rs != [] {
      var n := |rs| - 1;
      RenditionEntriesSpec(path, name, rs[..n], e);
      if exists k :: 0 <= k < n && rs[..n][k].shasum != "" && e == EntryOf(path, name, rs[..n][k]) {
        var k :| 0 <= k < n && rs[..n][k].shasum != "" && e == EntryOf(path, name, rs[..n][k]);
        assert rs[k] == rs[..n][k];
      }
      if exists k :: 0 <= k < |rs| && rs[k].shasum != "" && e == EntryOf(path, name, rs[k]) {
        var k :| 0 <= k < |rs| && rs[k].shasum != "" && e == EntryOf(path, name, rs[k]);
        if k < n {
          assert rs[..n][k] == rs[k];
        }
      }
    }
  }

  /** `e` is an entry of asset `a` of `assets`. */
  ghost predicate AssetEntryAt(path: string, assets: seq<AssetInfo>, a: int, e: AssetEntry)
  {
    0 <= a < |assets| && e in RenditionEntries(path, assets[a].name, assets[a].renditions)
  }

  /** The entries of a catalog are those of its assets' renditions with a checksum. */
  lemma {:induction false} AssetEntriesSpec(path: string, assets: seq<AssetInfo>, e: AssetEntry)
    ensures e in AssetEntries(path, assets) <==> exists a :: AssetEntryAt(path, assets, a, e)
  {
    if assets != [] {
      var n := |assets| - 1;
      var prefix := assets[..n];
      AssetEntriesSpec(path, prefix, e);
      assert AssetEntries(path, assets) ==
        AssetEntries(path, prefix) + RenditionEntries(path, assets[n].name, assets[n].renditions);
      if e in AssetEntries(path, prefix) {
        var a :| AssetEntryAt(path, prefix, a, e);
        assert AssetEntryAt(path, assets, a, e);
      }
      if e in RenditionEntries(path, assets[n].name, assets[n].renditions) {
        assert AssetEntryAt(path, assets, n, e);
      }
      if exists a :: AssetEntryAt(path, assets, a, e) {
        var a :| AssetEntryAt(path, assets, a, e);
        if a < n {
          assert AssetEntryAt(path, prefix, a, e);
        }
      }
    }
  }

  /** `e` is the entry of rendition `k` of asset `a` of catalog `c`. */
  ghost predicate EntryAt(cars: seq<CarFileInfo>, c: int, a: int, k: int, e: AssetEntry)
  {
    && 0 <= c < |cars| && 0 <= a < |cars[c].assets| && 0 <= k < |cars[c].assets[a].renditions|
    && cars[c].assets[a].renditions[k].shasum != ""
    && e == EntryOf(cars[c].path, cars[c].assets[a].name, cars[c].assets[a].renditions[k])
  }

  /** `e` is an entry of catalog `c` of `cars`. */
  ghost predicate CarEntryAt(cars: seq<CarFileInfo>, c: int, e: AssetEntry)
  {
    0 <= c < |cars| && e in AssetEntries(cars[c].path, cars[c].assets)
  }

  /** The entries of the whole loop are those of its catalogs. */
  lemma {:induction false} CarEntriesOf(cars: seq<CarFileInfo>, e: AssetEntry)
    ensures e in CarEntries(cars) <==> exists c :: CarEntryAt(cars, c, e)
  {
    if cars != [] {
      var n := |cars| - 1;
      var prefix := cars[..n];
      CarEntriesOf(prefix, e);
      assert CarEntries(cars) == CarEntries(prefix) + AssetEntries(cars[n].path, cars[n].assets);
      if e in CarEntries(prefix) {
        var c :| CarEntryAt(prefix, c, e);
        assert CarEntryAt(cars, c, e);
      }
      if e in AssetEntries(cars[n].path, cars[n].assets) {
        assert CarEntryAt(cars, n, e);
      }
      if exists c :: CarEntryAt(cars, c, e) {
        var c :| CarEntryAt(cars, c, e);
        if c < n {
          assert CarEntryAt(prefix, c, e);
        }
      }
    }
  }

  /** The entries of one catalog are those of its renditions with a checksum. */
  lemma CatalogEntries(cars: seq<CarFileInfo>, c: nat, e: AssetEntry)
    requires c < |cars|
    ensures CarEntryAt(cars, c, e) <==> exists a, k :: EntryAt(cars, c, a, k, e)
  {
    var car := cars[c];
    AssetEntriesSpec(car.path, car.assets, e);
    if CarEntryAt(cars, c, e) {
      var a :| AssetEntryAt(car.path, car.assets, a, e);
      RenditionEntriesSpec(car.path, car.assets[a].name, car.assets[a].renditions, e);
      var k :| 0 <= k < |car.assets[a].renditions| && car.assets[a].renditions[k].shasum != "" &&
        e == EntryOf(car.path, car.assets[a].name, car.assets[a].renditions[k]);
      assert EntryAt(cars, c, a, k, e);
    }
    if exists a, k :: EntryAt(cars, c, a, k, e) {
      var a, k :| EntryAt(cars, c, a, k, e);
      RenditionEntriesSpec(car.path, car.assets[a].name, car.assets[a].renditions, e);
      assert AssetEntryAt(car.path, car.assets, a, e);
    }
  }

  /** An entry of the whole loop is the entry of some rendition with a
      checksum, of some asset, of some catalog, and every such rendition
      has its entry. */
  lemma CarEntriesSpec(cars: seq<CarFileInfo>, e: AssetEntry)
    ensures e in CarEntries(cars) <==> exists c, a, k :: EntryAt(cars, c, a, k, e)
  {
    CarEntriesOf(cars, e);
    if e in CarEntries(cars) {
      var c :| CarEntryAt(cars, c, e);
      CatalogEntries(cars, c, e);
    }
    if exists c, a, k :: EntryAt(cars, c, a, k, e) {
      var c, a, k :| EntryAt(cars, c, a, k, e);
      CatalogEntries(cars, c, e);
    }
  }

  // ------------------------------------------------------------ shown asset name

  /** The asset name as the Go code takes it from a key: `strings.Split(key,
      ":")[0]`, the text before the first colon. */
  function SplitName(key: string): string
  {
    Split(key, ':')[0]
  }

  /** For a name without a colon that is the name itself. */
  lemma SplitNameOfKey(name: string, shasum: string)
    requires ':' !in name
    ensures SplitName(AssetKey(name, shasum)) == name
  {
    var key := AssetKey(name, shasum);
    assert key[|name|] == ':';
    forall j | 0 <= j < |name|
      ensures key[j] != ':'
    {
      assert key[j] == name[j];
    }
    SplitPrefixFirst(key, ':', |key|, |name|);
    assert key[..|name|] == name;
  }

  /** A name that contains a colon is cut short: "icon:dark" shows as "icon". */
  lemma ColonNameTruncated()
    ensures SplitName(AssetKey("icon:dark", "3f2a")) == "icon"
  {
    var key := AssetKey("icon:dark", "3f2a");
    assert key[4] == ':';
    SplitPrefixFirst(key, ':', |key|, 4);
    assert key[..4] == "icon";
  }

  /** The asset name of a key as intended: the text before the last colon
      (the checksum has none); the whole key when it has no colon. */
  function ShownName(key: string): string
  {
    var k := LastIndex(key, ':');
    if k < 0 then key else key[..k]
  }

  /** Recovers the asset name from its key, colons included. */
  lemma ShownNameOfKey(name: string, shasum: string)
    requires ':' !in shasum
    ensures ShownName(AssetKey(name, shasum)) == name
  {
    var key := AssetKey(name, shasum);
    var k := LastIndex(key, ':');
    assert key[|name|] == ':';
    forall j | |name| < j < |key|
      ensures key[j] != ':'
    {
      assert key[j] == shasum[j - |name| - 1];
    }
    assert k == |name|;
    assert key[..k] == name;
  }
}

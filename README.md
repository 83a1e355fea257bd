# bitrise-plugins-analyze, modelled in Dafny

The plugin analyses an iOS or Android app bundle. It builds a tree of the
bundle's files with sizes, types and SHA-256 checksums, and reads Mach-O
binaries through `lipo` and `otool`. It reads asset catalogs (`.car` files)
through `assetutil` and decompiled DEX classes through `jadx`. From the tree
it writes reports: the largest files and modules, the size per file type,
and duplicate files and duplicate assets.

This project models the logic of that pipeline. External tools,
the file system and the clock become input values.

- `FileSystem` covers `AnalyzeFile` and `getFileType`. The tree on disk is an
  input value whose nodes say whether `os.Stat`, `os.ReadDir` and the file read
  succeed. SHA-256 is a function parameter, and hex encoding is written out.
- `BundleRouting` routes a bundle by its extension (`AnalyzeBundlePath`).
- `MachO` models `analyzeMachO`: architectures from `lipo -info`, and the
  minimum OS version, linked libraries and run paths from `otool -l -L`.
- `CarCatalog` models `ParseCARFile` after `assetutil` ran: it groups
  renditions by asset name.
- `DexPackages` models `analyzeDexFiles` after `jadx` ran: the package tree
  built from the walk over the decompiled sources, and `findPackage`.
- `FileUtils` models the tree reports of `fileutils.go`: the largest files,
  the file count, the largest modules, the type breakdown and the groups of
  duplicates.
- `VisualizeFs` models `FindLargestFiles`, `addChildFiles` and
  `FindDuplicates` of `visualize/file_system.go`.
- `Markdown` models the data behind the Markdown report: module and file
  rows, the ten-row tables, duplicate rows, and asset-catalog duplicate rows.
- `SizeFormat` models the unit choice of `formatSize`.
- `TreeWalk`, `Seqs`, `Text` and `Results` are shared definitions.
  - `TreeWalk` covers the recursive `traverse` closures and preorder and postorder.
  - `Seqs` covers filtering, grouping into maps, `sort.Slice` and map iteration order.
  - `Text` covers the Go `strings` and `filepath` functions used.
  - `Results` holds the Option and Result types.

Go's map iteration order is unspecified. The model takes it as any order
that lists each key once (`Seqs.MapKeys`). The methods that range over a
map return that order as a ghost value, and their contracts hold whatever
it is. `sort.Slice` is a sort into non-increasing order. Its contract says
the result is sorted and a permutation of its input, and nothing about the
order of equal keys.

## Model

| member | source | states |
|---|---|---|
| `BundleRouting.AnalyzeBundlePath` | internal/analyzer/bundle_analyzer.go:17-28 | A bundle is refused exactly when its lower-cased final extension is none of the five known ones. The error message names that lower-cased extension. |
| `BundleRouting.ExtOfAppended` | internal/analyzer/bundle_analyzer.go:18 | A path that ends in an extension (a '.' followed by neither '.' nor '/') has that extension, whatever precedes it. |
| `BundleRouting.RoutingIgnoresCase` | internal/analyzer/bundle_analyzer.go:18 | Upper- or lower-casing the path does not change where it is routed. |
| `BundleRouting.FinalExtensionOnly` | internal/analyzer/bundle_analyzer.go:18-27 | Only the final extension counts: `x.ipa.apk` is routed as `.apk`. |
| `BundleRouting.RoutedByExtension` | internal/analyzer/bundle_analyzer.go:20-24 | `.app`, `.ipa` and `.xcarchive` in any case go to iOS; `.apk` and `.aab` go to Android. |
| `BundleRouting.ZippedBundleRefused` | internal/analyzer/bundle_analyzer.go:25-26 | A zipped bundle is refused with "unsupported file extension: .zip". |
| `BundleRouting.NoExtensionRefused` | internal/analyzer/bundle_analyzer.go:18-26 | A path with no '.' is refused with an empty extension in the message. |
| `FileSystem.ExtType` | internal/analyzer/file_system.go:87-110 | The extension table always gives one of the known types and never "directory". |
| `FileSystem.FileType` | internal/analyzer/file_system.go:79-111 | The type is always one of the seven names, and is "directory" exactly for directories. |
| `FileSystem.FileTypeByExtension` | internal/analyzer/file_system.go:84-85 | A file's type depends only on its lower-cased final extension, so renaming in another case changes nothing. |
| `FileSystem.AnalyzeFile` | internal/analyzer/file_system.go:21-77 | The recursive analysis returns exactly the tree (or first error) that the reference definition `Build` gives. |
| `FileSystem.AnalyzeEntries` | internal/analyzer/file_system.go:44-56 | The entry loop stops at the first failing child with its error. Otherwise it returns all children, their size total and their checksums in entry order. |
| `FileSystem.Shasums` | internal/analyzer/file_system.go:54 | One checksum per child, in child order. |
| `FileSystem.WriteChecksums` | internal/analyzer/file_system.go:59-63 | The bytes fed to the hash are the UTF-8 text of the checksums, one after another. |
| `FileSystem.BuildOkIffHealthy` | internal/analyzer/file_system.go:21-77 | Analysis succeeds exactly when every stat, directory listing and file read below the node succeeds. |
| `FileSystem.BuildChildren` | internal/analyzer/file_system.go:46-52 | A directory has one child per entry, in entry order, each built at the joined relative path. |
| `FileSystem.BuildSize` | internal/analyzer/file_system.go:44-67 | A node's size is the number of file bytes below it, and every directory's size is the sum of its children's sizes. |
| `FileSystem.BuildChecksum` | internal/analyzer/file_system.go:58-73 | A file's checksum is the hex SHA-256 of its bytes. A checksum is empty exactly for an empty directory, and any other is 64 hex digits. |
| `FileSystem.BuildHexChecksums` | internal/analyzer/file_system.go:58-73 | Every checksum in a built tree is empty or 64 lower-case hex digits. |
| `Text.HexRoundTrip` | internal/analyzer/file_system.go:125 | Hex encoding loses nothing: decoding the text gives the digest back. |
| `Text.ExtToLower` | internal/analyzer/file_system.go:84-85 | Taking the extension and lower-casing commute, so the second `ToLower` is redundant. |
| `MachO.ArchitecturesFound` | internal/analyzer/mach_o.go:83-87 | The architectures are set exactly when the `lipo` output contains a ':'. |
| `MachO.ArchitecturesAfterLastColon` | internal/analyzer/mach_o.go:83-86 | They are the trimmed text after the last ':', split on spaces, and joining them with spaces gives that text back. |
| `MachO.ArchitecturesOfLastPiece` | internal/analyzer/mach_o.go:84-86 | The architectures are the trimmed last piece of the output split on spaces, and joining them gives that text back. |
| `MachO.LookAhead` | internal/analyzer/mach_o.go:103-111 | The two-line look-ahead never reads past the last line. |
| `MachO.LibraryAt` | internal/analyzer/mach_o.go:114-117 | A library comes from an existing line and is a prefix of its trimmed text. |
| `MachO.FoundMembers` | internal/analyzer/mach_o.go:114-128 | A value is listed exactly when some line yields it. |
| `MachO.FoundLength` | internal/analyzer/mach_o.go:114-128 | No more values are listed than there are lines. |
| `MachO.LastFoundIs` | internal/analyzer/mach_o.go:103-111 | The minimum version is that of the last line announcing one. |
| `MachO.LastFoundNone` | internal/analyzer/mach_o.go:103-111 | With no announcement the minimum version stays "". |
| `MachO.LinkedLibraryLines` | internal/analyzer/mach_o.go:113-117 | A library is listed exactly when some line yields it. It starts with '/' and holds no white space. |
| `MachO.LibraryShape` | internal/analyzer/mach_o.go:114-115 | The first field of a line starting with '/' starts with '/' and holds no white space. |
| `MachO.ParseOtool` | internal/analyzer/mach_o.go:98-129 | The line loop yields the last announced minimum version, every library line's library in order, and every announced run path in order. |
| `MachO.ScanLookAhead` | internal/analyzer/mach_o.go:103-111 | One look-ahead test of the loop body agrees with `LookAhead`. |
| `MachO.ScanLibrary` | internal/analyzer/mach_o.go:114-117 | The library test of the loop body agrees with `LibraryAt`. |
| `MachO.AnalyzeMachO` | internal/analyzer/mach_o.go:66-132 | It fails on a failed stat, then on a failed `otool`. A failed `lipo` only leaves the architectures unset. Otherwise it returns the path, the size and what the outputs give. |
| `CarCatalog.CatalogSpec` | internal/analyzer/car.go:66-110 | The map holds one asset per created name, under that name, with that name's accepted renditions in record order. |
| `CarCatalog.RenditionsNeedName` | internal/analyzer/car.go:77-109 | Only a created asset receives renditions. |
| `CarCatalog.GroupRenditions` | internal/analyzer/car.go:66-116 | The assets list every created name once, each with the renditions of its accepted records in order. |
| `CarCatalog.AssetsOfKeys` | internal/analyzer/car.go:112-116 | Copying the map in any key order lists every asset once, unchanged. |
| `CarCatalog.ParseCarRecords` | internal/analyzer/car.go:65-126 | The parsed catalog has the relative path and exactly the grouped assets. |
| `CarCatalog.StoredRendition` | internal/analyzer/car.go:67-109 | Every stored rendition copies a record of its asset that passed every filter. It is not empty on disk and its name is neither empty nor a packed asset's. |
| `CarCatalog.AssetWithoutRenditions` | internal/analyzer/car.go:77-94 | An asset whose records were all refused at the rendition check is still listed, with no renditions. |
| `CarCatalog.AssetNamesSpec` | internal/analyzer/car.go:67-89 | A name is created exactly when some record with it is not empty on disk and the name is not refused. |
| `DexPackages.IndexOf` | internal/analyzer/dex.go:113-120 | The search stops at the first package of that name, or at the end when there is none. |
| `DexPackages.FindOrCreate` | internal/analyzer/dex.go:113-130 | The find-or-create loop gives that position and appends an empty package exactly when none was found. |
| `DexPackages.Insert` | internal/analyzer/dex.go:99-134 | The walk down the tree for one file builds the level `InsertPath` defines. |
| `DexPackages.InsertTidy` | internal/analyzer/dex.go:113-130 | Insertion keeps package names unique on every level. |
| `DexPackages.InsertTotal` | internal/analyzer/dex.go:102-134 | The top level grows by the file size exactly when some component is not ".". |
| `DexPackages.InsertHereTotal` | internal/analyzer/dex.go:107-133 | A component other than "." grows exactly one package of its level by the file size. |
| `DexPackages.InsertNamed` | internal/analyzer/dex.go:102-124 | Insertion never creates a package named "" or ".". |
| `DexPackages.FindFrom` | internal/analyzer/dex.go:158-170 | `findPackage` returns only a package whose name is the path. |
| `DexPackages.AddClassFrom` | internal/analyzer/dex.go:137-146 | Recording a class keeps every package's name and size and the number of packages. |
| `DexPackages.AddClassFound` | internal/analyzer/dex.go:139-145 | The class is appended to exactly the package `findPackage` finds, and to nothing when it finds none. |
| `DexPackages.AddClass` | internal/analyzer/dex.go:158-170 | The search loop reports a find exactly when `findPackage` does, and updates that package. |
| `DexPackages.DotNotFound` | internal/analyzer/dex.go:138-140 | A file in the top directory searches for "." and finds nothing. |
| `DexPackages.VisitEntry` | internal/analyzer/dex.go:76-146 | The walk callback changes the tree as `AddJavaFile` defines. |
| `DexPackages.AnalyzeDexFiles` | internal/analyzer/dex.go:66-155 | The walk gives the tree `DexTree` defines, or the first walk error with the "failed to analyze dex files: " prefix. |
| `DexPackages.DexTreeStops` | internal/analyzer/dex.go:71-74 | After the walk fails, later entries change nothing. |
| `DexPackages.AddJavaFileTidy` | internal/analyzer/dex.go:96-146 | One file keeps names unique per level and never "" or ".". |
| `DexPackages.AddClassShape` | internal/analyzer/dex.go:139-145 | Recording a class keeps that shape. |
| `DexPackages.DexTreeTidy` | internal/analyzer/dex.go:71-149 | After any walk over clean paths, no level holds two packages of one name. |
| `DexPackages.TopLevelFileIgnored` | internal/analyzer/dex.go:96-146 | A `.java` file directly in the sources directory changes nothing. |
| `DexPackages.SkippedEntry` | internal/analyzer/dex.go:76-84 | Directories and files not ending in ".java" change nothing. |
| `DexPackages.DotDirIgnored` | internal/analyzer/dex.go:102-146 | A `.java` file whose directory is "." changes nothing: the "." component is skipped and the search for "." finds no package. |
| `DexPackages.PathNameJoin` | internal/analyzer/dex.go:107-111 | Walking down from the top level ends at the package named by the components joined with '/', the path that `findPackage` is given. |
| `DexPackages.OnlyHead` | internal/analyzer/dex.go:158-167 | On a level whose packages are named one level below their holder, only the package for the next component can lead `findPackage` towards the path. |
| `DexPackages.InsertThenRecord` | internal/analyzer/dex.go:102-146 | Along components that are neither empty nor ".", `findPackage` of the path the walk built finds the package grown last. Recording the class there equals one walk that grows each package on the path and gives the class to the last. |
| `DexPackages.AddJavaFileRecords` | internal/analyzer/dex.go:96-146 | For a `.java` file below the top directory, `findPackage` of the joined components succeeds. The entry's effect is that single walk. |
| `DexPackages.InsertClassCumulative` | internal/analyzer/dex.go:115-145 | The single walk keeps every package's size equal to its own classes' sizes plus its children's sizes, on every level. The top level grows by the class size. |
| `DexPackages.InsertClassWellNamed` | internal/analyzer/dex.go:107-130 | The single walk names every package it appends one level below the package that holds it. |
| `DexPackages.AddJavaFileCumulative` | internal/analyzer/dex.go:76-146 | One entry keeps every size cumulative. The top-level total grows by the file size exactly when the entry is a `.java` file below the top directory. |
| `DexPackages.DexTreeCumulative` | internal/analyzer/dex.go:71-149 | After any walk over clean paths, every package's size is the total size of the `.java` files below it: its own classes plus its children. |
| `TreeWalk.Collect` | internal/visualize/fileutils.go:13-21 | A `traverse` closure appending to a slice collects what the reference `Gather` defines. |
| `TreeWalk.GatherSpec` | internal/visualize/fileutils.go:13-21 | That collection is the image of the kept nodes in preorder. |
| `TreeWalk.GroupCollect` | internal/visualize/fileutils.go:149-159 | A closure appending under a map key builds the map `GroupTree` defines. |
| `TreeWalk.AddUpCollect` | internal/visualize/fileutils.go:100-112 | A closure adding into a map builds the map `AddUpTree` defines. |
| `TreeWalk.GatheredDescendants` | internal/visualize/fileutils.go:53-78 | The per-child postorder walks gather, up to order, the kept descendants of the root. |
| `TreeWalk.LeafSum` | internal/analyzer/file_system.go:53-56 | When every directory holds the sum of its children, the leaves' sizes add up to the root's size. |
| `Seqs.SortedCopy` | internal/visualize/fileutils.go:26-28 | `sort.Slice` by descending size: the result is sorted and a permutation of its input. |
| `Seqs.MapKeys` | internal/visualize/fileutils.go:118 | Ranging over a map visits every key exactly once. |
| `FileUtils.FindLargestFiles` | internal/visualize/fileutils.go:10-31 | Lists exactly the leaves with a positive size, largest first. With no negative sizes in a consistent tree they add up to the root's size. |
| `FileUtils.SizedLeafTotal` | internal/visualize/fileutils.go:15 | Leaving out leaves of size zero loses no bytes. |
| `FileUtils.CountFiles` | internal/visualize/fileutils.go:34-47 | The count is the number of leaves of the tree, a childless root counting as one. |
| `FileUtils.LeavesExist` | internal/visualize/fileutils.go:34-47 | Every tree has a leaf, so the count is at least one. |
| `FileUtils.ModuleWalk` | internal/visualize/fileutils.go:55-76 | The inner `traverse` reports the module directories of a subtree in postorder. Each has the size of its direct leaves. |
| `FileUtils.ModulesBelow` | internal/visualize/fileutils.go:53-78 | The outer loop gathers the modules below each child of the root, in child order. |
| `FileUtils.FindLargestModules` | internal/visualize/fileutils.go:50-86 | Exactly the modules strictly below the root, largest first. |
| `FileUtils.TypeLabel` | internal/visualize/fileutils.go:103-106 | A leaf is counted under its own type, or "unknown" when it has none. |
| `FileUtils.CalculateTypeBreakdown` | internal/visualize/fileutils.go:96-133 | One row per type that occurs, each holding its leaves' bytes, largest first. The rows add up to all leaf bytes, and to the root size in a consistent tree. |
| `FileUtils.AddUpIsTotals` | internal/visualize/fileutils.go:100-114 | The map holds exactly the labels that occur, each with its leaves' total. |
| `FileUtils.BreakdownRows` | internal/visualize/fileutils.go:117-125 | Converting the map lists every type once with its total, in any key order. |
| `FileUtils.RowsTotal` | internal/visualize/fileutils.go:117-125 | Rows listing each total once add up to all the leaves' bytes. |
| `FileUtils.FindDuplicates` | internal/visualize/fileutils.go:145-192 | One group per size-and-checksum key shared by at least two leaves, none missing, sorted by wasted space. Each group holds the total wasted space. |
| `FileUtils.HashedGroups` | internal/visualize/fileutils.go:146-178 | Grouping and the map loop report every shared key once and return the wasted total. |
| `FileUtils.GroupedBuckets` | internal/visualize/fileutils.go:149-161 | The walk stores under each key exactly the leaves with that key, in walk order. |
| `FileUtils.DuplicateGroups` | internal/visualize/fileutils.go:164-178 | The map loop builds the groups of the keys with more than one file and sums their wasted space. |
| `FileUtils.GroupsForKeys` | internal/visualize/fileutils.go:167-178 | A group is reported for a key exactly when the key has at least two files. |
| `FileUtils.RankGroups` | internal/visualize/fileutils.go:181-189 | Sorting keeps the groups and their keys, orders them by wasted space, and stores the total in each. |
| `FileUtils.PermutedGroups` | internal/visualize/fileutils.go:181-183 | Sorting keeps what the groups report and their total. |
| `FileUtils.SetTotalWasted` | internal/visualize/fileutils.go:186-189 | The last loop stores the total in every group and changes nothing else. |
| `FileUtils.Restamped` | internal/visualize/fileutils.go:186-189 | Storing the total keeps the groups, their keys and their order. |
| `FileUtils.WastedIsExtraCopies` | internal/visualize/fileutils.go:169 | A group's wasted space is the bytes of all its copies but one. |
| `VisualizeFs.AddChildFiles` | internal/visualize/file_system.go:62-71 | Appends every non-directory below the node, in preorder. |
| `VisualizeFs.RootThenChildren` | internal/visualize/file_system.go:42-47 | The root if it is not a directory, then the files below it, are all the non-directories of the tree. |
| `VisualizeFs.FindLargestFiles` | internal/visualize/file_system.go:38-59 | The `n` largest non-directories, largest first (all of them when fewer). Nothing left out is larger than anything listed. |
| `VisualizeFs.TopOfSorted` | internal/visualize/file_system.go:50-58 | The first `m` of a sorted copy are its `m` largest elements, still sorted. |
| `VisualizeFs.GroupSizeGroups` | internal/visualize/file_system.go:15-25 | The size-group loop appends, under its checksum, every file of every size group holding two or more files. |
| `VisualizeFs.AppendByChecksum` | internal/visualize/file_system.go:22-24 | The inner loop appends each file under its checksum, in order. |
| `VisualizeFs.DropSingletons` | internal/visualize/file_system.go:28-32 | Deleting while ranging keeps exactly the groups of two or more files, unchanged. |
| `VisualizeFs.FindDuplicates` | internal/visualize/file_system.go:10-35 | With `sizeGroups` never filled, the result is always empty with no error. |
| `SizeFormat.FormatSize` | internal/visualize/html.go:36-47 | Below 1024 the size is shown in bytes. Otherwise `div` is the largest power of 1024 not above the size, and its letter is the unit. No `int64` size runs past "E". |
| `SizeFormat.ExponentBound` | internal/visualize/html.go:41-46 | A power of 1024 within `int64` has exponent at most six, so the letter index is at most five. |
| `SizeFormat.BandUnique` | internal/visualize/html.go:41-46 | Only one power band holds a size, so each size has exactly one unit. |
| `Markdown.ModuleTraverse` | internal/visualize/markdown.go:153-173 | The closure reports each module directory's path, direct-leaf bytes and direct-leaf count, in postorder. |
| `Markdown.FindLargestModules` | internal/visualize/markdown.go:150-183 | Exactly the module rows of the whole tree, root included, largest first. |
| `Markdown.ModuleRows` | internal/visualize/markdown.go:155-171 | The root is reported when it is a module. Every row has a positive size and at least one file. |
| `Markdown.FindLargestFiles` | internal/visualize/markdown.go:186-210 | Exactly the path and size of each leaf with a positive size, largest first. |
| `Markdown.LargestFilesTotal` | internal/visualize/markdown.go:186-210 | In a consistent tree with no negative sizes, the file rows add up to the root's size. |
| `Markdown.FindDuplicateFiles` | internal/visualize/markdown.go:213-229 | A checksum is a key exactly when some leaf carries it, and its files are exactly those leaves in walk order. |
| `Markdown.CheckedFile` | internal/visualize/markdown.go:218-219 | A listed file is a leaf of the tree carrying that non-empty checksum. |
| `Markdown.GetRelativePaths` | internal/visualize/markdown.go:232-238 | The paths of the files, one per file, in order. |
| `Markdown.ShownRows` | internal/visualize/markdown.go:54-57 | The loop that breaks at index ten shows the first ten rows, or all when there are fewer. |
| `Markdown.DuplicateRows` | internal/visualize/markdown.go:93-101 | One row per checksum with more than one file: its first eight characters, the first file's size, the count and the paths. |
| `Markdown.FileSystemDuplicates` | internal/visualize/markdown.go:87-101 | The table has one row per checksum shared by two or more leaves, with all of them. Only those checksums need eight characters for `shasum[:8]`. |
| `Markdown.BuiltChecksumsLongEnough` | internal/visualize/markdown.go:96 | In a built tree every checksum is 64 digits, so `shasum[:8]` never panics. |
| `Markdown.RecordRenditions` | internal/visualize/markdown.go:117-124 | The innermost loop appends each location under its key and overwrites the key's size. |
| `Markdown.RecordAssets` | internal/visualize/markdown.go:116-125 | The asset loop does so for each asset of one catalog. |
| `Markdown.RecordCatalogs` | internal/visualize/markdown.go:112-126 | The catalog loop does so for every catalog. |
| `Markdown.AssetRows` | internal/visualize/markdown.go:129-138 | One row per key with more than one location: the text of the key before its first ':', the stored size, the count and the locations. |
| `Markdown.AssetCatalogDuplicates` | internal/visualize/markdown.go:106-138 | One row per name and checksum seen at two or more locations, with all locations in catalog, asset and rendition order. Each row shows the text of its key before the first ':' and the size of the last rendition seen under the key. |
| `Markdown.LastSizeShown` | internal/visualize/markdown.go:122 | The size shown is that of the last rendition seen under the key. |
| `Markdown.RenditionEntriesSpec` | internal/visualize/markdown.go:117-124 | An asset's entries are those of its renditions with a checksum. |
| `Markdown.AssetEntriesSpec` | internal/visualize/markdown.go:116-125 | A catalog's entries are those of its assets' renditions with a checksum. |
| `Markdown.CarEntriesSpec` | internal/visualize/markdown.go:115-126 | An entry of the loop is that of some rendition with a checksum of some asset of some catalog, and every such rendition has one. |
| `Markdown.SplitNameOfKey` | internal/visualize/markdown.go:131 | For a name without ':' the shown name is the name itself. |
| `Markdown.ColonNameTruncated` | internal/visualize/markdown.go:131 | As written, "icon:dark" is shown as "icon". |
| `Markdown.ShownNameOfKey` | internal/visualize/markdown.go:131 | Cutting at the last ':' recovers any asset name, colons included. |

## Left out

- Running `lipo`, `otool`, `assetutil`, `jadx` and `file`, and reading JSON. Their outputs or decoded records are inputs, and a failed run is an `Option`.
- `os.Stat`, `os.ReadDir`, reading files and `filepath.Walk`. The tree and the walk's entries are input values, with flags or `Err` entries for failures.
- `filepath.Rel` is not modelled. Relative paths are inputs. `filepath.Join` and `filepath.Dir` are written for clean relative paths with '/' separators (`DexPackages.CleanPath`), without `Clean`'s rewriting.
- SHA-256 is a function parameter. Its algorithm is not modelled; hex encoding is.
- Floating point: the percentage columns, and the one-decimal text of `formatSize`. Only the choice of unit and divisor is modelled.
- Writing Markdown, HTML and JSON text and files, and the report headers.
- `int64` overflow of sizes and sums is not modelled: sizes are unbounded integers. `SizeFormat.FormatSize` is the exception, where the `int64` range bounds the unit index.
- `strings.ToLower` is modelled for ASCII letters only; Unicode case mapping is out of scope. `strings.TrimSpace` and `strings.Fields` use the full Unicode white-space set.
- The order of Go's map iteration is any order that lists each key once. The order of equal elements after `sort.Slice` is unspecified.
- `DexPackages.Insert`: the pointer walk through `*[]DexPackage` is modelled on values by a recursive method. Aliasing and in-place update are not captured.
- `MachOInfo.LoadCommands` is never filled by the code and is left out.
- `CarCatalog.RenditionOf`: the fallbacks to `SHA1Digest` for an empty asset or rendition name are unreachable, because both names were already checked. They are left out.
- `CarCatalog.AssetNamesSpec`: a record is dropped only when `SizeOnDisk == 0`, so negative sizes pass as the code has it. A rule of "positive size only" would not be what the code does.
- `VisualizeFs.FindLargestFiles`: a negative `n` makes Go's slice expression panic. The model requires `n >= 0`.
- `Markdown.DuplicateRows`: `shasum[:8]` panics on a checksum shorter than eight characters, so the model requires at least eight for every checksum shared by two or more files. `Markdown.BuiltChecksumsLongEnough` shows that built trees meet this.
- `Markdown.FileSystemDuplicates`: requires eight characters only of checksums shared by two or more leaves, the ones Go slices.
- `DexPackages.DexTreeCumulative`: requires every directory to be "." or made of components that are neither empty nor "." (`DexPackages.CleanDir`), as `filepath.Dir` gives it after `filepath.Rel`. `Clean` itself is not modelled.
- `FileSystem.AnalyzeFile`: symbolic links, special files and permission modes are not distinguished from regular files and directories.
- The platform analysers (`ios.go`, `android.go`), archive extraction (`zip.go`), the manifest and app-bundle readers, the command line, and the HTML and JSON generators are not part of this model.

## Findings

| source | as written | input that shows it | evidently intended | confidence | as-written member | corrected member |
|---|---|---|---|---|---|---|
| internal/visualize/markdown.go:131 | The asset name is `strings.Split(key, ":")[0]` of the key `name:shasum`, so everything after the first ':' is lost. | An asset named "icon:dark" with checksum "3f2a" has key "icon:dark:3f2a" and is shown as "icon". | Show the whole asset name: the key up to its last ':' (a checksum has no ':'). | not executed | `Markdown.ColonNameTruncated` | `Markdown.ShownNameOfKey` |

The table operations `Markdown.AssetRows` and `Markdown.AssetCatalogDuplicates` keep the behaviour as written (`Markdown.SplitName`). `Markdown.ShownName` is the corrected name, and `Markdown.ShownNameOfKey` proves it recovers every asset name.

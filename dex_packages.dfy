/** The package tree of `analyzeDexFiles` (internal/analyzer/dex.go): every
    `.java` file that the walk over the decompiled sources meets is inserted
    into a tree of packages, each package on its directory path growing by
    the file's size, and the class is recorded in the package that
    `findPackage` returns. Decompiling with `jadx` and walking the directory
    are outside the model: the walk is the sequence of entries it visits. */
module DexPackages {
  import opened Results
  import opened Seqs
  import opened Text

  datatype DexClass = DexClass(name: string, size: int)

  datatype DexPackage = DexPackage(
    name: string,
    size: int,
    classes: seq<DexClass>,
    children: seq<DexPackage>)

  /** One file-system entry as the walk reports it: its path relative to the
      sources directory, its base name, whether it is a directory and its size. */
  datatype WalkEntry = WalkEntry(relPath: string, name: string, isDir: bool, size: int)

  function PackageSize(p: DexPackage): int { p.size }

  /** `filepath.Dir` of a clean relative path: everything before the last
      '/', or "." when there is none. */
  function Dir(path: string): string
  {
    var k := LastIndex(path, '/');
    if k < 0 then "." else path[..k]
  }

  /** The name of the package for `component` below the package named
      `prefix` ("" at the top level). */
  function ChildName(prefix: string, component: string): string
  {
    if prefix == "" then component else prefix + "/" + component
  }

  // ------------------------------------------------------------ insertion

  /** The position of the first package named `name`, or `|ps|` when none is. */
  function IndexOf(ps: seq<DexPackage>, name: string): (i: nat)
    ensures i <= |ps|
    ensures i < |ps| ==> ps[i].name == name
    ensures forall j :: 0 <= j < i ==> ps[j].name != name
  {
    if ps == [] then 0
    else if ps[0].name == name then 0
    else 1 + IndexOf(ps[1..], name)
  }

  /** The level after the walk down `components` from a level named under
      `prefix`: "." components are skipped; for each other one the package of
      that name is found or appended empty, grows by `size`, and the walk
      goes on in its children. */
  function InsertPath(level: seq<DexPackage>, components: seq<string>, prefix: string, size: int): seq<DexPackage>
    decreases |components|
  {
    if components == [] then level
    else if components[0] == "." then InsertPath(level, components[1..], prefix, size)
    else
      var path := ChildName(prefix, components[0]);
      var i := IndexOf(level, path);
      var grown := if i == |level| then level + [DexPackage(path, 0, [], [])] else level;
      var pkg := grown[i];
      grown[i := pkg.(size := pkg.size + size, children := InsertPath(pkg.children, components[1..], path, size))]
  }

  /** The find-or-create loop over one level: the position of the package
      named `path`, appending an empty one when there is none. */
  method FindOrCreate(level: seq<DexPackage>, path: string) returns (r: seq<DexPackage>, i: nat)
    ensures i == IndexOf(level, path)
    ensures r == if i == |level| then level + [DexPackage(path, 0, [], [])] else level
  {
    i := 0;
    while i < |level|
      invariant i <= |level|
      invariant forall j :: 0 <= j < i ==> level[j].name != path
    {
      if level[i].name == path {
        IndexOfFirst(level, path, i);
        return level, i;
      }
      i := i + 1;
    }
    IndexOfFirst(level, path, i);
    r := level + [DexPackage(path, 0, [], [])];
  }

  /** The first package of that name is the one the search stops at. */
  lemma IndexOfFirst(ps: seq<DexPackage>, name: string, i: nat)
    requires i <= |ps| && (i < |ps| ==> ps[i].name == name)
    requires forall j :: 0 <= j < i ==> ps[j].name != name
    ensures IndexOf(ps, name) == i
  {
  }

  /** The walk down the package tree for one file, level by level: the
      pointer `currentLevel` of the Go loop is the recursion. */
  method Insert(level: seq<DexPackage>, components: seq<string>, prefix: string, size: int)
    returns (r: seq<DexPackage>)
    ensures r == InsertPath(level, components, prefix, size)
    decreases |components|
  {
    if components == [] {
      return level;
    }
    if components[0] == "." {
      r := Insert(level, components[1..], prefix, size);
      return;
    }
    var path := ChildName(prefix, components[0]);
    var grown, i := FindOrCreate(level, path);
    var pkg := grown[i];
    var children := Insert(pkg.children, components[1..], path, size);
    r := grown[i := pkg.(size := pkg.size + size, children := children)];
  }

  // ------------------------------------------------------------ invariants

  /** No two packages of one level share a name. */
  ghost predicate UniqueNames(ps: seq<DexPackage>)
  {
    forall i, j :: 0 <= i < j < |ps| ==> ps[i].name != ps[j].name
  }

  /** Names are unique on every level of the tree. */
  ghost predicate Tidy(ps: seq<DexPackage>)
    decreases ps
  {
    UniqueNames(ps) && forall i :: 0 <= i < |ps| ==> Tidy(ps[i].children)
  }

  /** Insertion reuses a package when its name is there and appends one only
      when it is not, so no level ever holds two packages of the same name. */
  lemma {:induction false} InsertTidy(level: seq<DexPackage>, components: seq<string>, prefix: string, size: int)
    requires Tidy(level)
    ensures Tidy(InsertPath(level, components, prefix, size))
    decreases |components|
  {
    if components != [] {
      if components[0] == "." {
        InsertTidy(level, components[1..], prefix, size);
      } else {
        var path := ChildName(prefix, components[0]);
        var i := IndexOf(level, path);
        var grown := if i == |level| then level + [DexPackage(path, 0, [], [])] else level;
        var pkg := grown[i];
        assert Tidy(pkg.children) by {
          if i < |level| {
            assert pkg == level[i];
          }
        }
        InsertTidy(pkg.children, components[1..], path, size);
        var r := grown[i := pkg.(size := pkg.size + size, children := InsertPath(pkg.children, components[1..], path, size))];
        assert UniqueNames(grown);
        forall j | 0 <= j < |r|
          ensures Tidy(r[j].children)
        {
          if j != i && j < |level| {
            assert r[j] == level[j];
          }
        }
      }
    }
  }

  /** Whether some component names a package (is not "."). */
  predicate Descends(components: seq<string>)
  {
    exists j :: 0 <= j < |components| && components[j] != "."
  }

  /** The top level grows by the file's size exactly when the file is below
      some package: every package on the path grows by it, the first one
      among them on the top level. */
  lemma {:induction false} InsertTotal(level: seq<DexPackage>, components: seq<string>, prefix: string, size: int)
    ensures SumBy(InsertPath(level, components, prefix, size), PackageSize) ==
      SumBy(level, PackageSize) + (if Descends(components) then size else 0)
    decreases |components|
  {
    if components != [] {
      if components[0] == "." {
        InsertTotal(level, components[1..], prefix, size);
        DescendsSkip(components);
      } else {
        InsertHereTotal(level, components, prefix, size);
        assert components[0] != ".";
      }
    }
  }

  /** A component other than "." grows exactly one package of the level,
      found or appended empty, by the file's size. */
  lemma InsertHereTotal(level: seq<DexPackage>, components: seq<string>, prefix: string, size: int)
    requires components != [] && components[0] != "."
    ensures SumBy(InsertPath(level, components, prefix, size), PackageSize) == SumBy(level, PackageSize) + size
  {
    var path := ChildName(prefix, components[0]);
    var i := IndexOf(level, path);
    var grown := if i == |level| then level + [DexPackage(path, 0, [], [])] else level;
    var pkg := grown[i];
    var after := pkg.(size := pkg.size + size, children := InsertPath(pkg.children, components[1..], path, size));
    assert InsertPath(level, components, prefix, size) == grown[i := after];
    GrownTotal(level, path);
    SumByUpdate(grown, i, after, PackageSize);
  }

  /** A leading "." does not decide whether the path goes below a package. */
  lemma DescendsSkip(components: seq<string>)
    requires components != [] && components[0] == "."
    ensures Descends(components) <==> Descends(components[1..])
  {
    if Descends(components) {
      var j :| 0 <= j < |components| && components[j] != ".";
      assert components[1..][j - 1] == components[j];
    }
    if Descends(components[1..]) {
      var j :| 0 <= j < |components[1..]| && components[1..][j] != ".";
      assert components[j + 1] != ".";
    }
  }

  /** Appending an empty package leaves the level's total unchanged. */
  lemma GrownTotal(level: seq<DexPackage>, path: string)
    ensures var i := IndexOf(level, path);
      SumBy(if i == |level| then level + [DexPackage(path, 0, [], [])] else level, PackageSize) == SumBy(level, PackageSize)
  {
    if IndexOf(level, path) == |level| {
      SumByConcat(level, [DexPackage(path, 0, [], [])], PackageSize);
    }
  }

  /** Every package has a name that is neither "" nor ".", on every level. */
  ghost predicate Named(ps: seq<DexPackage>)
    decreases ps
  {
    forall i :: 0 <= i < |ps| ==> ps[i].name != "" && ps[i].name != "." && Named(ps[i].children)
  }

  /** Insertion names packages only after components other than "" and ".". */
  lemma {:induction false} InsertNamed(level: seq<DexPackage>, components: seq<string>, prefix: string, size: int)
    requires Named(level)
    requires forall j :: 0 <= j < |components| ==> components[j] != ""
    ensures Named(InsertPath(level, components, prefix, size))
    decreases |components|
  {
    if components != [] {
      if components[0] == "." {
        InsertNamed(level, components[1..], prefix, size);
      } else {
        var path := ChildName(prefix, components[0]);
        assert path != "" && path != "." by {
          if prefix != "" {
            assert |path| >= 3;
          }
        }
        var i := IndexOf(level, path);
        var grown := if i == |level| then level + [DexPackage(path, 0, [], [])] else level;
        var pkg := grown[i];
        assert Named(pkg.children) by {
          if i < |level| {
            assert pkg == level[i];
          }
        }
        InsertNamed(pkg.children, components[1..], path, size);
        var r := grown[i := pkg.(size := pkg.size + size, children := InsertPath(pkg.children, components[1..], path, size))];
        forall j | 0 <= j < |r|
          ensures r[j].name != "" && r[j].name != "." && Named(r[j].children)
        {
          if j != i && j < |level| {
            assert r[j] == level[j];
          }
        }
      }
    }
  }

  // ------------------------------------------------------------ lookup

  /** `findPackage` from position `i` of a level: the first package named
      `path`, looking into the children of a package only when its name
      followed by '/' starts `path`. */
  function FindFrom(ps: seq<DexPackage>, path: string, i: nat): (r: Option<DexPackage>)
    requires i <= |ps|
    ensures r.Some? ==> r.value.name == path
    decreases ps, |ps| - i
  {
    if i == |ps| then None
    else if ps[i].name == path then Some(ps[i])
    else if HasPrefix(path, ps[i].name + "/") && FindFrom(ps[i].children, path, 0).Some? then FindFrom(ps[i].children, path, 0)
    else FindFrom(ps, path, i + 1)
  }

  /** `p` with one more class. */
  function WithClass(p: DexPackage, c: DexClass): DexPackage
  {
    p.(classes := p.classes + [c])
  }

  /** The packages after appending `c` to the classes of the package that
      `FindFrom` finds; unchanged when it finds none. Only positions from `i`
      on can change, and no name, size or order changes. */
  function AddClassFrom(ps: seq<DexPackage>, path: string, c: DexClass, i: nat): (r: seq<DexPackage>)
    requires i <= |ps|
    ensures |r| == |ps|
    ensures forall k :: 0 <= k < |ps| ==> r[k].name == ps[k].name && r[k].size == ps[k].size
    ensures forall k :: 0 <= k < i ==> r[k] == ps[k]
    decreases ps, |ps| - i
  {
    if i == |ps| then ps
    else if ps[i].name == path then ps[i := WithClass(ps[i], c)]
    else if HasPrefix(path, ps[i].name + "/") && FindFrom(ps[i].children, path, 0).Some? then
      ps[i := ps[i].(children := AddClassFrom(ps[i].children, path, c, 0))]
    else AddClassFrom(ps, path, c, i + 1)
  }

  /** Appending the class changes exactly the package `findPackage` returns:
      looking it up again gives it with the class at the end, and when there
      is none nothing changes. */
  lemma {:induction false} AddClassFound(ps: seq<DexPackage>, path: string, c: DexClass, i: nat)
    requires i <= |ps|
    ensures FindFrom(ps, path, i).None? ==> AddClassFrom(ps, path, c, i) == ps
    ensures FindFrom(ps, path, i).Some? ==>
      FindFrom(AddClassFrom(ps, path, c, i), path, i) == Some(WithClass(FindFrom(ps, path, i).value, c))
    decreases ps, |ps| - i
  {
    if i < |ps| && ps[i].name != path {
      if HasPrefix(path, ps[i].name + "/") && FindFrom(ps[i].children, path, 0).Some? {
        AddClassFound(ps[i].children, path, c, 0);
      } else {
        AddClassFound(ps, path, c, i + 1);
      }
    }
  }

  /** The Go search: the loop over one level, returning as soon as a
      package is named `path` or a package's children hold it, and the
      append to the classes of what it found. */
  method AddClass(ps: seq<DexPackage>, path: string, c: DexClass) returns (found: bool, r: seq<DexPackage>)
    ensures found == FindFrom(ps, path, 0).Some?
    ensures r == AddClassFrom(ps, path, c, 0)
    decreases ps
  {
    var i := 0;
    while i < |ps|
      invariant i <= |ps|
      invariant FindFrom(ps, path, 0) == FindFrom(ps, path, i)
      invariant AddClassFrom(ps, path, c, 0) == AddClassFrom(ps, path, c, i)
    {
      if ps[i].name == path {
        return true, ps[i := WithClass(ps[i], c)];
      }
      if HasPrefix(path, ps[i].name + "/") {
        var inner, children := AddClass(ps[i].children, path, c);
        if inner {
          return true, ps[i := ps[i].(children := children)];
        }
      }
      i := i + 1;
    }
    return false, ps;
  }

  /** No package is named "." and none has a name that, followed by '/',
      starts ".": a file directly in the sources directory finds no package. */
  lemma {:induction false} DotNotFound(ps: seq<DexPackage>, i: nat)
    requires Named(ps) && i <= |ps|
    ensures FindFrom(ps, ".", i) == None
    decreases |ps| - i
  {
    if i < |ps| {
      assert ps[i].name != "" && ps[i].name != ".";
      assert !HasPrefix(".", ps[i].name + "/");
      DotNotFound(ps, i + 1);
    }
  }

  // ------------------------------------------------------------ the walk

  /** What one walked entry does to the tree: directories and files not
      ending in ".java" are skipped; a `.java` file is inserted along the
      components of its directory, then recorded as a class (its name without
      ".java") in the package that the lookup finds for the joined components. */
  function AddJavaFile(packages: seq<DexPackage>, e: WalkEntry): seq<DexPackage>
  {
    if e.isDir || !HasSuffix(e.name, ".java") then packages
    else
      var components := Split(Dir(e.relPath), '/');
      var inserted := InsertPath(packages, components, "", e.size);
      AddClassFrom(inserted, Join(components, '/'), DexClass(TrimSuffix(e.name, ".java"), e.size), 0)
  }

  /** The tree after the walk, or the first error the walk reports. */
  function DexTree(entries: seq<Result<WalkEntry, string>>): Result<seq<DexPackage>, string>
  {
    if entries == [] then Ok([])
    else
      var before := DexTree(entries[..|entries| - 1]);
      var last := entries[|entries| - 1];
      if before.Err? then before
      else if last.Err? then Err("failed to analyze dex files: " + last.error)
      else Ok(AddJavaFile(before.value, last.value))
  }

  /** The walk callback for one `.java` file or skipped entry. */
  method VisitEntry(packages: seq<DexPackage>, e: WalkEntry) returns (r: seq<DexPackage>)
    ensures r == AddJavaFile(packages, e)
  {
    if e.isDir || !HasSuffix(e.name, ".java") {
      return packages;
    }
    var components := Split(Dir(e.relPath), '/');
    r := Insert(packages, components, "", e.size);
    var className := TrimSuffix(e.name, ".java");
    var found;
    found, r := AddClass(r, Join(components, '/'), DexClass(className, e.size));
  }

  /** `analyzeDexFiles` after decompiling: the walk over the entries,
      stopping at the first error. */
  method AnalyzeDexFiles(entries: seq<Result<WalkEntry, string>>) returns (r: Result<seq<DexPackage>, string>)
    ensures r == DexTree(entries)
  {
    var packages: seq<DexPackage> := [];
    for k := 0 to |entries|
      invariant DexTree(entries[..k]) == Ok(packages)
    {
      assert entries[..k + 1][..k] == entries[..k];
      if entries[k].Err? {
        DexTreeStops(entries, k + 1);
        return Err("failed to analyze dex files: " + entries[k].error);
      }
      packages := VisitEntry(packages, entries[k].value);
    }
    assert entries[..|entries|] == entries;
    r := Ok(packages);
  }

  /** Once the walk has failed, later entries change nothing. */
  lemma {:induction false} DexTreeStops(entries: seq<Result<WalkEntry, string>>, k: nat)
    requires k <= |entries| && DexTree(entries[..k]).Err?
    ensures DexTree(entries) == DexTree(entries[..k])
    decreases |entries| - k
  {
    if k < |entries| {
      assert entries[..k + 1][..k] == entries[..k];
      DexTreeStops(entries, k + 1);
    } else {
      assert entries[..k] == entries;
    }
  }

  // ------------------------------------------------------------ properties of the walk

  /** A path as `filepath.Rel` gives it for a walked file: its directory
      has no empty component. */
  predicate CleanPath(e: WalkEntry)
  {
    forall j :: 0 <= j < |Split(Dir(e.relPath), '/')| ==> Split(Dir(e.relPath), '/')[j] != ""
  }

  /** One entry keeps every level's names unique and every name other than
      "" and ".". */
  lemma AddJavaFileTidy(packages: seq<DexPackage>, e: WalkEntry)
    requires Tidy(packages) && Named(packages) && CleanPath(e)
    ensures Tidy(AddJavaFile(packages, e)) && Named(AddJavaFile(packages, e))
  {
    if !e.isDir && HasSuffix(e.name, ".java") {
      var components := Split(Dir(e.relPath), '/');
      InsertTidy(packages, components, "", e.size);
      InsertNamed(packages, components, "", e.size);
      var inserted := InsertPath(packages, components, "", e.size);
      AddClassShape(inserted, Join(components, '/'), DexClass(TrimSuffix(e.name, ".java"), e.size), 0);
    }
  }

  /** Recording a class keeps the shape of the tree: names and their
      uniqueness on every level. */
  lemma {:induction false} AddClassShape(ps: seq<DexPackage>, path: string, c: DexClass, i: nat)
    requires i <= |ps| && Tidy(ps) && Named(ps)
    ensures Tidy(AddClassFrom(ps, path, c, i)) && Named(AddClassFrom(ps, path, c, i))
    decreases ps, |ps| - i
  {
    if i < |ps| && ps[i].name != path {
      if HasPrefix(path, ps[i].name + "/") && FindFrom(ps[i].children, path, 0).Some? {
        AddClassShape(ps[i].children, path, c, 0);
        var r := AddClassFrom(ps, path, c, i);
        forall j | 0 <= j < |r|
          ensures Tidy(r[j].children) && Named(r[j].children)
        {
          if j != i {
            assert r[j] == ps[j];
          }
        }
      } else {
        AddClassShape(ps, path, c, i + 1);
      }
    } else if i < |ps| {
      var r := AddClassFrom(ps, path, c, i);
      forall j | 0 <= j < |r|
        ensures Tidy(r[j].children) && Named(r[j].children)
      {
        if j != i {
          assert r[j] == ps[j];
        }
      }
    }
  }

  /** After any walk over clean paths, no level holds two packages of the
      same name and every package is named by a real directory component. */
  lemma {:induction false} DexTreeTidy(entries: seq<Result<WalkEntry, string>>)
    requires forall k :: 0 <= k < |entries| && entries[k].Ok? ==> CleanPath(entries[k].value)
    ensures DexTree(entries).Ok? ==> Tidy(DexTree(entries).value) && Named(DexTree(entries).value)
  {
    if entries != [] {
      var n := |entries| - 1;
      DexTreeTidy(entries[..n]);
      if DexTree(entries).Ok? {
        AddJavaFileTidy(DexTree(entries[..n]).value, entries[n].value);
      }
    }
  }

  /** A `.java` file directly in the sources directory is counted nowhere:
      its directory is ".", so no package grows and no class is recorded. */
  lemma TopLevelFileIgnored(packages: seq<DexPackage>, e: WalkEntry)
    requires Named(packages)
    requires !e.isDir && HasSuffix(e.name, ".java") && '/' !in e.relPath
    ensures AddJavaFile(packages, e) == packages
  {
    assert LastIndex(e.relPath, '/') < 0;
    DotDirIgnored(packages, e);
  }

  /** Whatever the entry, a directory of "." leaves the tree as it is. */
  lemma DotDirIgnored(packages: seq<DexPackage>, e: WalkEntry)
    requires Named(packages) && Dir(e.relPath) == "."
    ensures AddJavaFile(packages, e) == packages
  {
    var components := Split(Dir(e.relPath), '/');
    assert components == ["."] by {
      SplitPrefixNone(".", '/', 1);
      assert "."[..1] == ".";
    }
    assert Join(components, '/') == ".";
    assert InsertPath(packages, components, "", e.size) == packages;
    DotNotFound(packages, 0);
    AddClassFound(packages, ".", DexClass(TrimSuffix(e.name, ".java"), e.size), 0);
  }

  /** Directories and files that do not end in ".java" change nothing. */
  lemma SkippedEntry(packages: seq<DexPackage>, e: WalkEntry)
    requires e.isDir || !HasSuffix(e.name, ".java")
    ensures AddJavaFile(packages, e) == packages
  {
  }

  // ------------------------------------------------------------ cumulative sizes

  function ClassSize(c: DexClass): int { c.size }

  /** A directory component of a walked path: not empty, not ".", no '/'. */
  predicate Component(d: string)
  {
    d != "" && d != "." && '/' !in d
  }

  /** What the names of the packages below the package named `prefix`
      start with ("" on the top level). */
  function Under(prefix: string): string
  {
    if prefix == "" then "" else prefix + "/"
  }

  lemma ChildNameUnder(prefix: string, d: string)
    ensures ChildName(prefix, d) == Under(prefix) + d
  {
    if prefix == "" {
      assert "" + d == d;
    }
  }

  /** `name` names a package one level below the package named `prefix`. */
  predicate ChildOf(prefix: string, name: string)
  {
    var u := Under(prefix);
    HasPrefix(name, u) && Component(name[|u|..])
  }

  /** Every package is named one level below the package that holds it, on
      every level; `prefix` is the name of the package holding `ps`. */
  ghost predicate WellNamed(ps: seq<DexPackage>, prefix: string)
    decreases ps
  {
    forall j :: 0 <= j < |ps| ==> ChildOf(prefix, ps[j].name) && WellNamed(ps[j].children, ps[j].name)
  }

  /** A package's size is the size of its own classes plus that of its children. */
  predicate SizeAddsUp(p: DexPackage)
  {
    p.size == SumBy(p.classes, ClassSize) + SumBy(p.children, PackageSize)
  }

  /** Every package's size adds up, on every level: it is the total size of
      the `.java` files below it. */
  ghost predicate Cumulative(ps: seq<DexPackage>)
    decreases ps
  {
    forall j :: 0 <= j < |ps| ==> SizeAddsUp(ps[j]) && Cumulative(ps[j].children)
  }

  /** The name of the package the walk down `components` from the package
      named `prefix` ends at. */
  function PathName(prefix: string, components: seq<string>): string
    decreases |components|
  {
    if components == [] then prefix else PathName(ChildName(prefix, components[0]), components[1..])
  }

  /** The level with a package named `path`: unchanged when it has one,
      otherwise with an empty one appended. */
  function Grown(level: seq<DexPackage>, path: string): (r: seq<DexPackage>)
    ensures IndexOf(level, path) < |r|
    ensures r[IndexOf(level, path)].name == path
    ensures |level| <= |r| && forall j :: 0 <= j < |level| ==> r[j] == level[j]
  {
    if IndexOf(level, path) == |level| then level + [DexPackage(path, 0, [], [])] else level
  }

  /** One `.java` file in a single walk down the tree: every package on its
      path is found or appended empty and grows by the class's size, and the
      last one also gets the class. */
  function InsertClass(level: seq<DexPackage>, components: seq<string>, prefix: string, c: DexClass): seq<DexPackage>
    requires components != []
    decreases |components|, 1
  {
    var path := ChildName(prefix, components[0]);
    var grown := Grown(level, path);
    var i := IndexOf(level, path);
    grown[i := Walked(grown[i], components[1..], c)]
  }

  /** A package on the walk after it: grown by the class's size, and holding
      the class when the walk ends there (`rest` is what is left of the path). */
  function Walked(pkg: DexPackage, rest: seq<string>, c: DexClass): DexPackage
    decreases |rest|, 2
  {
    if rest == [] then pkg.(size := pkg.size + c.size, classes := pkg.classes + [c])
    else pkg.(size := pkg.size + c.size, children := InsertClass(pkg.children, rest, pkg.name, c))
  }

  /** The package a level finds or appends: the one already there, or an
      empty one. */
  lemma GrownAt(level: seq<DexPackage>, path: string)
    ensures var i := IndexOf(level, path); var pkg := Grown(level, path)[i];
      (i < |level| ==> pkg == level[i]) && (i == |level| ==> pkg == DexPackage(path, 0, [], []))
  {
  }

  /** `findPackage`'s test of a package name against the path it looks for:
      the name itself, or the name and a '/' at the start of the path. */
  predicate Heads(path: string, name: string)
  {
    path == name || HasPrefix(path, name + "/")
  }

  lemma HeadsAt(path: string, name: string)
    requires Heads(path, name)
    ensures |name| <= |path| && path[..|name|] == name
    ensures |path| == |name| || path[|name|] == '/'
  {
    if path != name {
      assert path[..|name + "/"|][..|name|] == path[..|name|];
      assert path[..|name + "/"|][|name|] == path[|name|];
    }
  }

  /** Two names of one level that both head a path are the same name: a
      component holds no '/', so the path says where it ends. */
  lemma HeadsAgree(path: string, u: string, d: string, e: string)
    requires '/' !in d && '/' !in e
    requires Heads(path, u + d) && Heads(path, u + e)
    ensures d == e
  {
    HeadsNoLonger(path, u, d, e);
    HeadsNoLonger(path, u, e, d);
    HeadsAt(path, u + d);
    HeadsAt(path, u + e);
    assert d == (u + d)[|u|..];
    assert e == (u + e)[|u|..];
  }

  /** A name that heads a path cannot be cut short by another one: the
      character after the shorter one is a '/' or the end. */
  lemma HeadsNoLonger(path: string, u: string, d: string, e: string)
    requires '/' !in e
    requires Heads(path, u + d) && Heads(path, u + e)
    ensures |e| <= |d|
  {
    HeadsAt(path, u + d);
    HeadsAt(path, u + e);
  }

  /** The walk from a package ends at that package or below it. */
  lemma {:induction false} PathNameUnder(p: string, components: seq<string>)
    requires p != ""
    ensures Heads(PathName(p, components), p)
    ensures components != [] ==> HasPrefix(PathName(p, components), p + "/")
    decreases |components|
  {
    if components != [] {
      var q := ChildName(p, components[0]);
      PathNameUnder(q, components[1..]);
      var t := PathName(q, components[1..]);
      HeadsAt(t, q);
      assert q[..|p + "/"|] == p + "/";
      assert t[..|p + "/"|] == t[..|q|][..|p + "/"|];
    }
  }

  /** One more component makes the walk end one level further down. */
  lemma {:induction false} PathNameSnoc(p: string, components: seq<string>, d: string)
    ensures PathName(p, components + [d]) == ChildName(PathName(p, components), d)
    decreases |components|
  {
    if components == [] {
      assert ([] + [d])[1..] == [];
    } else {
      assert (components + [d])[1..] == components[1..] + [d];
      PathNameSnoc(ChildName(p, components[0]), components[1..], d);
    }
  }

  /** From the top level, the walk ends at the package named by the
      components joined with '/', the path `findPackage` is given. */
  lemma {:induction false} PathNameJoin(components: seq<string>)
    requires components != [] && forall j :: 0 <= j < |components| ==> components[j] != ""
    ensures PathName("", components) == Join(components, '/')
    ensures Join(components, '/') != ""
    decreases |components|
  {
    var n := |components| - 1;
    if n == 0 {
      assert components == [] + [components[0]];
      PathNameSnoc("", [], components[0]);
    } else {
      var front := components[..n];
      PathNameJoin(front);
      assert components == front + [components[n]];
      PathNameSnoc("", front, components[n]);
    }
  }

  /** The lookup and the class append pass over packages that do not head
      the path. */
  lemma {:induction false} PassOver(ps: seq<DexPackage>, path: string, c: DexClass, a: nat, b: nat)
    requires a <= b <= |ps|
    requires forall j :: a <= j < b ==> !Heads(path, ps[j].name)
    ensures FindFrom(ps, path, a) == FindFrom(ps, path, b)
    ensures AddClassFrom(ps, path, c, a) == AddClassFrom(ps, path, c, b)
    decreases b - a
  {
    if a < b {
      PassOver(ps, path, c, a + 1, b);
    }
  }

  /** The package a level finds or appends for `d` is the only one of the
      level that heads a path leading through `d`: the ones before it are
      named after other components. */
  lemma OnlyHead(level: seq<DexPackage>, prefix: string, d: string, path: string, j: nat)
    requires WellNamed(level, prefix) && Component(d)
    requires Heads(path, ChildName(prefix, d))
    requires j < IndexOf(level, ChildName(prefix, d))
    ensures !Heads(path, level[j].name)
  {
    var u := Under(prefix);
    var name := level[j].name;
    assert ChildOf(prefix, name);
    assert name == u + name[|u|..];
    assert ChildName(prefix, d) == u + d;
    if Heads(path, name) {
      HeadsAgree(path, u, name[|u|..], d);
      assert false;
    }
  }

  /** Inserting along clean components and then recording the class in what
      the lookup of the full path finds is the single walk of `InsertClass`:
      the lookup finds the package the insertion grew last. */
  lemma {:induction false} InsertThenRecord(level: seq<DexPackage>, components: seq<string>, prefix: string, c: DexClass)
    requires WellNamed(level, prefix)
    requires components != [] && forall j :: 0 <= j < |components| ==> Component(components[j])
    ensures FindFrom(InsertPath(level, components, prefix, c.size), PathName(prefix, components), 0).Some?
    ensures AddClassFrom(InsertPath(level, components, prefix, c.size), PathName(prefix, components), c, 0) ==
      InsertClass(level, components, prefix, c)
    decreases |components|, 1
  {
    var path := ChildName(prefix, components[0]);
    var grown := Grown(level, path);
    var i := IndexOf(level, path);
    var rest := components[1..];
    var pkg := grown[i];
    var target := PathName(prefix, components);
    InsertPathAt(level, components, prefix, c.size);
    var r := grown[i := Inserted(pkg, rest, c.size)];
    assert Component(components[0]);
    ChildNamed(prefix, components[0]);
    WellNamedGrown(level, prefix, path);
    ComponentsRest(components);
    ChildNameUnder(prefix, components[0]);
    PathNameUnder(path, rest);
    forall j | 0 <= j < i
      ensures !Heads(target, r[j].name)
    {
      OnlyHead(level, prefix, components[0], target, j);
    }
    PassOver(r, target, c, 0, i);
    RecordWalked(pkg, rest, c);
    if rest == [] {
      RecordHere(r, target, c, i);
    } else {
      assert target != path by {
        assert |target| > |path|;
      }
      RecordBelow(r, target, c, i);
    }
  }

  /** A package on the walk after the insertion: grown by `size`, with the
      rest of the path inserted below it. */
  function Inserted(pkg: DexPackage, rest: seq<string>, size: int): DexPackage
  {
    pkg.(size := pkg.size + size, children := InsertPath(pkg.children, rest, pkg.name, size))
  }

  /** One step of the insertion along a component other than ".". */
  lemma InsertPathAt(level: seq<DexPackage>, components: seq<string>, prefix: string, size: int)
    requires components != [] && components[0] != "."
    ensures var path := ChildName(prefix, components[0]); var i := IndexOf(level, path);
      InsertPath(level, components, prefix, size) == Grown(level, path)[i := Inserted(Grown(level, path)[i], components[1..], size)]
  {
  }

  /** Recording the class at the end of the inserted path gives the package
      the single walk gives. */
  lemma {:induction false} RecordWalked(pkg: DexPackage, rest: seq<string>, c: DexClass)
    requires pkg.name != "" && WellNamed(pkg.children, pkg.name)
    requires forall j :: 0 <= j < |rest| ==> Component(rest[j])
    ensures rest == [] ==> WithClass(Inserted(pkg, rest, c.size), c) == Walked(pkg, rest, c)
    ensures rest != [] ==> FindFrom(Inserted(pkg, rest, c.size).children, PathName(pkg.name, rest), 0).Some?
    ensures rest != [] ==> Inserted(pkg, rest, c.size).(children :=
      AddClassFrom(Inserted(pkg, rest, c.size).children, PathName(pkg.name, rest), c, 0)) == Walked(pkg, rest, c)
    decreases |rest|, 2
  {
    if rest != [] {
      InsertThenRecord(pkg.children, rest, pkg.name, c);
    }
  }

  /** The lookup stops at a package named as the path, and the class goes there. */
  lemma RecordHere(ps: seq<DexPackage>, path: string, c: DexClass, i: nat)
    requires i < |ps| && ps[i].name == path
    ensures FindFrom(ps, path, i) == Some(ps[i])
    ensures AddClassFrom(ps, path, c, i) == ps[i := WithClass(ps[i], c)]
  {
  }

  /** The lookup goes into a package whose name and '/' start the path when
      its children hold the path, and the class goes there. */
  lemma RecordBelow(ps: seq<DexPackage>, path: string, c: DexClass, i: nat)
    requires i < |ps| && ps[i].name != path && HasPrefix(path, ps[i].name + "/")
    requires FindFrom(ps[i].children, path, 0).Some?
    ensures FindFrom(ps, path, i) == FindFrom(ps[i].children, path, 0)
    ensures AddClassFrom(ps, path, c, i) == ps[i := ps[i].(children := AddClassFrom(ps[i].children, path, c, 0))]
  {
  }

  /** Replacing one package by one whose size adds up keeps the level cumulative. */
  lemma CumulativeSet(ps: seq<DexPackage>, i: nat, p: DexPackage)
    requires Cumulative(ps) && i < |ps| && SizeAddsUp(p) && Cumulative(p.children)
    ensures Cumulative(ps[i := p])
  {
  }

  /** Appending an empty package keeps the level cumulative. */
  lemma CumulativeGrown(level: seq<DexPackage>, path: string)
    requires Cumulative(level)
    ensures Cumulative(Grown(level, path))
  {
    var r := Grown(level, path);
    var empty := DexPackage(path, 0, [], []);
    assert SizeAddsUp(empty) && Cumulative(empty.children);
    forall j | 0 <= j < |r|
      ensures SizeAddsUp(r[j]) && Cumulative(r[j].children)
    {
      if j >= |level| {
        assert r[j] == empty;
      }
    }
  }

  /** The single walk keeps every package's size the total below it, and the
      top level grows by the class's size. */
  lemma {:induction false} InsertClassCumulative(level: seq<DexPackage>, components: seq<string>, prefix: string, c: DexClass)
    requires Cumulative(level) && components != []
    ensures Cumulative(InsertClass(level, components, prefix, c))
    ensures SumBy(InsertClass(level, components, prefix, c), PackageSize) == SumBy(level, PackageSize) + c.size
    decreases |components|, 1
  {
    var path := ChildName(prefix, components[0]);
    var grown := Grown(level, path);
    var i := IndexOf(level, path);
    CumulativeGrown(level, path);
    var after := Walked(grown[i], components[1..], c);
    WalkedAddsUp(grown[i], components[1..], c);
    CumulativeSet(grown, i, after);
    GrownTotal(level, path);
    SumByUpdate(grown, i, after, PackageSize);
  }

  /** A package whose size adds up still does after the walk passes it, and
      it has grown by the class's size. */
  lemma {:induction false} WalkedAddsUp(pkg: DexPackage, rest: seq<string>, c: DexClass)
    requires SizeAddsUp(pkg) && Cumulative(pkg.children)
    ensures SizeAddsUp(Walked(pkg, rest, c)) && Cumulative(Walked(pkg, rest, c).children)
    ensures Walked(pkg, rest, c).size == pkg.size + c.size
    decreases |rest|, 2
  {
    if rest == [] {
      SumByConcat(pkg.classes, [c], ClassSize);
    } else {
      InsertClassCumulative(pkg.children, rest, pkg.name, c);
    }
  }

  /** Replacing one package by one named one level below keeps the level well named. */
  lemma WellNamedSet(ps: seq<DexPackage>, prefix: string, i: nat, p: DexPackage)
    requires WellNamed(ps, prefix) && i < |ps| && ChildOf(prefix, p.name) && WellNamed(p.children, p.name)
    ensures WellNamed(ps[i := p], prefix)
  {
  }

  /** The single walk names every package it appends one level below its holder. */
  lemma {:induction false} InsertClassWellNamed(level: seq<DexPackage>, components: seq<string>, prefix: string, c: DexClass)
    requires WellNamed(level, prefix)
    requires components != [] && forall j :: 0 <= j < |components| ==> Component(components[j])
    ensures WellNamed(InsertClass(level, components, prefix, c), prefix)
    decreases |components|, 1
  {
    var path := ChildName(prefix, components[0]);
    var grown := Grown(level, path);
    var i := IndexOf(level, path);
    assert Component(components[0]);
    ChildNamed(prefix, components[0]);
    WellNamedGrown(level, prefix, path);
    ComponentsRest(components);
    WalkedWellNamed(grown[i], components[1..], c);
    WellNamedSet(grown, prefix, i, Walked(grown[i], components[1..], c));
  }

  /** The walk keeps the names below a package well named. */
  lemma {:induction false} WalkedWellNamed(pkg: DexPackage, rest: seq<string>, c: DexClass)
    requires WellNamed(pkg.children, pkg.name)
    requires forall j :: 0 <= j < |rest| ==> Component(rest[j])
    ensures Walked(pkg, rest, c).name == pkg.name
    ensures WellNamed(Walked(pkg, rest, c).children, pkg.name)
    decreases |rest|, 2
  {
    if rest != [] {
      InsertClassWellNamed(pkg.children, rest, pkg.name, c);
    }
  }

  /** A component names a package one level below. */
  lemma ChildNamed(prefix: string, d: string)
    requires Component(d)
    ensures ChildOf(prefix, ChildName(prefix, d))
  {
    ChildNameUnder(prefix, d);
    var u := Under(prefix);
    assert (u + d)[|u|..] == d;
  }

  lemma ComponentsRest(components: seq<string>)
    requires components != [] && forall j :: 0 <= j < |components| ==> Component(components[j])
    ensures forall j :: 0 <= j < |components[1..]| ==> Component(components[1..][j])
  {
    forall j | 0 <= j < |components[1..]|
      ensures Component(components[1..][j])
    {
      assert components[1..][j] == components[j + 1];
    }
  }

  /** Appending an empty package named one level below keeps the level well
      named, and the package found or appended has well named children. */
  lemma WellNamedGrown(level: seq<DexPackage>, prefix: string, path: string)
    requires WellNamed(level, prefix) && ChildOf(prefix, path)
    ensures WellNamed(Grown(level, path), prefix)
    ensures WellNamed(Grown(level, path)[IndexOf(level, path)].children, path)
  {
    var r := Grown(level, path);
    var empty := DexPackage(path, 0, [], []);
    assert WellNamed(empty.children, path);
    forall j | 0 <= j < |r|
      ensures ChildOf(prefix, r[j].name) && WellNamed(r[j].children, r[j].name)
    {
      if j >= |level| {
        assert r[j] == empty;
      }
    }
  }

  /** Every package named one level below its holder has a name that is
      neither "" nor ".". */
  lemma {:induction false} WellNamedIsNamed(ps: seq<DexPackage>, prefix: string)
    requires WellNamed(ps, prefix)
    ensures Named(ps)
    decreases ps
  {
    forall j | 0 <= j < |ps|
      ensures ps[j].name != "" && ps[j].name != "." && Named(ps[j].children)
    {
      WellNamedIsNamed(ps[j].children, ps[j].name);
      var u := Under(prefix);
      var name := ps[j].name;
      assert name == u + name[|u|..];
      if prefix != "" {
        assert |name| >= 2;
      }
    }
  }

  /** A walked path as `filepath.Rel` and `filepath.Dir` give it: its
      directory is the sources directory itself (".") or made of components
      that are neither empty nor ".". */
  predicate CleanDir(e: WalkEntry)
  {
    var components := Split(Dir(e.relPath), '/');
    Dir(e.relPath) == "." || forall j :: 0 <= j < |components| ==> components[j] != "" && components[j] != "."
  }

  /** A `.java` file in a package directory: the lookup of its joined
      components finds the package the insertion grew last, and the whole
      entry is the single walk that grows every package on the path by the
      file's size and records the class in the last one. */
  lemma AddJavaFileRecords(packages: seq<DexPackage>, e: WalkEntry)
    requires WellNamed(packages, "") && CleanDir(e)
    requires !e.isDir && HasSuffix(e.name, ".java") && Dir(e.relPath) != "."
    ensures var components := Split(Dir(e.relPath), '/');
      && FindFrom(InsertPath(packages, components, "", e.size), Join(components, '/'), 0).Some?
      && AddJavaFile(packages, e) == InsertClass(packages, components, "", DexClass(TrimSuffix(e.name, ".java"), e.size))
  {
    var dir := Dir(e.relPath);
    var components := Split(dir, '/');
    SplitPrefixPieces(dir, '/', |dir|);
    InsertThenRecord(packages, components, "", DexClass(TrimSuffix(e.name, ".java"), e.size));
    PathNameJoin(components);
  }

  /** One entry keeps every package's size the total of the `.java` files
      below it; the top level grows by the file's size exactly when it is a
      `.java` file in a package directory. */
  lemma AddJavaFileCumulative(packages: seq<DexPackage>, e: WalkEntry)
    requires Cumulative(packages) && WellNamed(packages, "") && CleanDir(e)
    ensures Cumulative(AddJavaFile(packages, e)) && WellNamed(AddJavaFile(packages, e), "")
    ensures SumBy(AddJavaFile(packages, e), PackageSize) == SumBy(packages, PackageSize) +
      (if !e.isDir && HasSuffix(e.name, ".java") && Dir(e.relPath) != "." then e.size else 0)
  {
    if !e.isDir && HasSuffix(e.name, ".java") {
      if Dir(e.relPath) == "." {
        WellNamedIsNamed(packages, "");
        DotDirIgnored(packages, e);
      } else {
        var dir := Dir(e.relPath);
        var components := Split(dir, '/');
        SplitPrefixPieces(dir, '/', |dir|);
        AddJavaFileRecords(packages, e);
        InsertClassCumulative(packages, components, "", DexClass(TrimSuffix(e.name, ".java"), e.size));
        InsertClassWellNamed(packages, components, "", DexClass(TrimSuffix(e.name, ".java"), e.size));
      }
    }
  }

  /** After any walk over clean paths, every package's size is the total size
      of the `.java` files in its subtree: its own classes and its children's. */
  lemma {:induction false} DexTreeCumulative(entries: seq<Result<WalkEntry, string>>)
    requires forall k :: 0 <= k < |entries| && entries[k].Ok? ==> CleanDir(entries[k].value)
    ensures DexTree(entries).Ok? ==> Cumulative(DexTree(entries).value) && WellNamed(DexTree(entries).value, "")
  {
    if entries != [] {
      var n := |entries| - 1;
      DexTreeCumulative(entries[..n]);
      if DexTree(entries).Ok? {
        AddJavaFileCumulative(DexTree(entries[..n]).value, entries[n].value);
      }
    }
  }
}

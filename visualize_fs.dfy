/** The finders of internal/visualize/file_system.go: the `n` largest nodes
    that are not directories, collected by `addChildFiles`, and a
    `FindDuplicates` whose size groups are never filled, so that it always
    finds nothing. */
module VisualizeFs {
  import opened Results
  import opened Seqs
  import opened FileSystem
  import opened TreeWalk

  /** A node `addChildFiles` keeps: anything not typed "directory", whatever
      its size or children. */
  predicate IsFile(f: FileInfo)
  {
    f.fileType != "directory"
  }

  /** Every node of the tree that is not a directory, the root included, in preorder. */
  function NonDirectories(root: FileInfo): seq<FileInfo>
  {
    Filter(Subtrees(root), IsFile)
  }

  // ------------------------------------------------------------ largest files

  /** The nodes that are not directories among the subtrees of the first
      `k` children of `t`, in preorder. */
  function FilesBelow(t: FileInfo, k: nat): seq<FileInfo>
    requires k <= |t.children|
  {
    Filter(SubtreesOf(t, k)[1..], IsFile)
  }

  /** `addChildFiles`: appends to `files`, in preorder, every node below
      `info` that is not a directory, each child before its own children. */
  method AddChildFiles(info: FileInfo, files: seq<FileInfo>) returns (r: seq<FileInfo>)
    ensures r == files + Filter(Descendants(info), IsFile)
    decreases info
  {
    r := files;
    FilesBelowNone(info);
    var k := 0;
    while k < |info.children|
      invariant 0 <= k <= |info.children|
      invariant r == files + FilesBelow(info, k)
    {
      var child := info.children[k];
      ghost var before := r;
      if IsFile(child) {
        r := r + [child];
      }
      r := AddChildFiles(child, r);
      ChildFilesStep(info, k, files, before, r);
      k := k + 1;
    }
  }

  lemma FilesBelowNone(t: FileInfo)
    ensures FilesBelow(t, 0) == []
  {
    assert SubtreesOf(t, 0)[1..] == [];
  }

  /** Walking child `k` adds the child if it is not a directory, then the
      nodes below it: exactly the non-directories of its subtree. */
  lemma ChildFilesStep(t: FileInfo, k: nat, files: seq<FileInfo>, before: seq<FileInfo>, after: seq<FileInfo>)
    requires k < |t.children|
    requires before == files + FilesBelow(t, k)
    requires after == before + (if IsFile(t.children[k]) then [t.children[k]] else [])
      + Filter(Descendants(t.children[k]), IsFile)
    ensures after == files + FilesBelow(t, k + 1)
  {
    var c := t.children[k];
    FilesBelowStep(t, k);
    RootThenChildren(c);
    Regroup(files, FilesBelow(t, k), if IsFile(c) then [c] else [], Filter(Descendants(c), IsFile));
  }

  /** One more child adds the non-directories of its subtree. */
  lemma FilesBelowStep(t: FileInfo, k: nat)
    requires k < |t.children|
    ensures FilesBelow(t, k + 1) == FilesBelow(t, k) + NonDirectories(t.children[k])
  {
    var done := SubtreesOf(t, k);
    assert SubtreesOf(t, k + 1)[1..] == done[1..] + Subtrees(t.children[k]);
    FilterConcat(done[1..], Subtrees(t.children[k]), IsFile);
  }

  /** The root if it is not a directory, then the non-directories below it,
      are every non-directory node of the tree. */
  lemma RootThenChildren(root: FileInfo)
    ensures (if IsFile(root) then [root] else []) + Filter(Descendants(root), IsFile) == NonDirectories(root)
  {
    assert Subtrees(root) == [root] + Descendants(root);
    FilterConcat([root], Descendants(root), IsFile);
    assert [root][..0] == [];
  }

  /** `FindLargestFiles(bundle, n)`: the `n` largest non-directory nodes
      (all of them when there are fewer), largest first. Every node left out
      is no larger than every node listed. A negative `n` makes the Go slice
      expression panic. */
  method FindLargestFiles(root: FileInfo, n: int) returns (r: seq<FileInfo>)
    requires n >= 0
    ensures |r| == if |NonDirectories(root)| < n then |NonDirectories(root)| else n
    ensures multiset(r) <= multiset(NonDirectories(root))
    ensures SortedDesc(r, SizeOf)
    ensures forall x, y :: x in multiset(NonDirectories(root)) - multiset(r) && y in r ==> x.size <= y.size
  {
    var files: seq<FileInfo> := if IsFile(root) then [root] else [];
    files := AddChildFiles(root, files);
    RootThenChildren(root);
    ghost var all := files;
    files := SortedCopy(files, SizeOf);
    assert |files| == |multiset(files)| == |multiset(all)| == |all|;
    r := if |files| < n then files else files[..n];
    assert r == files[..|r|];
    TopOfSorted(files, all, |r|);
  }

  /** Once the elements of `s` from index `m` on are taken out, what is left
      is the first `m`. */
  lemma PrefixRest<T>(s: seq<T>, m: nat)
    requires m <= |s|
    ensures multiset(s) - multiset(s[..m]) == multiset(s[m..])
  {
    assert s == s[..m] + s[m..];
  }

  /** In a sequence sorted by non-increasing size, nothing after position
      `m` is larger than anything before it. */
  lemma SortedSplit(s: seq<FileInfo>, m: nat)
    requires SortedDesc(s, SizeOf) && m <= |s|
    ensures forall x, y :: x in s[m..] && y in s[..m] ==> x.size <= y.size
  {
    forall x, y | x in s[m..] && y in s[..m]
      ensures x.size <= y.size
    {
      var j :| m <= j < |s| && s[j] == x;
      var i :| 0 <= i < m && s[i] == y;
      assert SizeOf(s[i]) >= SizeOf(s[j]);
    }
  }

  /** The first `m` elements of a sequence sorted by non-increasing size are
      its `m` largest, still sorted, whatever sequence it is a sorted copy of. */
  lemma TopOfSorted(s: seq<FileInfo>, all: seq<FileInfo>, m: nat)
    requires SortedDesc(s, SizeOf) && multiset(s) == multiset(all) && m <= |s|
    ensures multiset(s[..m]) <= multiset(all)
    ensures SortedDesc(s[..m], SizeOf)
    ensures forall x, y :: x in multiset(all) - multiset(s[..m]) && y in s[..m] ==> x.size <= y.size
  {
    PrefixRest(s, m);
    SortedSplit(s, m);
    assert s == s[..m] + s[m..];
  }

  // ------------------------------------------------------------ duplicates

  /** The files of the size groups with at least two members, in the order
      `keys` visits the groups. */
  function Eligible(groups: map<int, seq<FileInfo>>, keys: seq<int>): seq<FileInfo>
    requires forall k :: k in keys ==> k in groups
  {
    if keys == [] then []
    else
      var last := keys[|keys| - 1];
      assert forall k :: k in keys[..|keys| - 1] ==> k in keys;
      Eligible(groups, keys[..|keys| - 1]) + (if |groups[last]| < 2 then [] else groups[last])
  }

  /** The first loop of `FindDuplicates`: every file of every size group
      with at least two files, appended under its checksum. `keys` is the
      order the `range` visits the groups in. */
  method GroupSizeGroups(sizeGroups: map<int, seq<FileInfo>>)
    returns (dups: map<string, seq<FileInfo>>, ghost keys: seq<int>)
    ensures forall k :: k in keys <==> k in sizeGroups
    ensures forall i, j :: 0 <= i < j < |keys| ==> keys[i] != keys[j]
    ensures |keys| == |sizeGroups|
    ensures dups == GroupBy(map[], Eligible(sizeGroups, keys), ShasumOf, Id)
  {
    var ks := MapKeys(sizeGroups);
    keys := ks;
    dups := map[];
    for i := 0 to |ks|
      invariant dups == GroupBy(map[], Eligible(sizeGroups, ks[..i]), ShasumOf, Id)
    {
      ghost var before := dups;
      var group := sizeGroups[ks[i]];
      if |group| >= 2 {
        dups := AppendByChecksum(dups, group);
      }
      assert ks[i] in ks;
      EligibleStep(sizeGroups, ks, i, before, dups);
    }
    assert ks[..|ks|] == ks;
  }

  /** The inner loop: `duplicates[file.Shasum] = append(duplicates[file.Shasum], file)`
      for each file of one size group, in order. */
  method AppendByChecksum(m: map<string, seq<FileInfo>>, group: seq<FileInfo>) returns (r: map<string, seq<FileInfo>>)
    ensures r == GroupBy(m, group, ShasumOf, Id)
  {
    r := m;
    for j := 0 to |group|
      invariant r == GroupBy(m, group[..j], ShasumOf, Id)
    {
      var file := group[j];
      assert group[..j + 1][..j] == group[..j];
      r := r[file.shasum := (if file.shasum in r then r[file.shasum] else []) + [file]];
    }
    assert group[..|group|] == group;
  }

  /** Visiting group `ks[i]` appends its files when it has two or more, and
      leaves the map alone otherwise. */
  lemma EligibleStep(groups: map<int, seq<FileInfo>>, ks: seq<int>, i: nat,
                     before: map<string, seq<FileInfo>>, after: map<string, seq<FileInfo>>)
    requires i < |ks| && forall k :: k in ks ==> k in groups
    requires ks[i] in groups
    requires before == GroupBy(map[], Eligible(groups, ks[..i]), ShasumOf, Id)
    requires after == if |groups[ks[i]]| < 2 then before else GroupBy(before, groups[ks[i]], ShasumOf, Id)
    ensures after == GroupBy(map[], Eligible(groups, ks[..i + 1]), ShasumOf, Id)
  {
    assert ks[..i + 1][..i] == ks[..i];
    var g := groups[ks[i]];
    if |g| < 2 {
      assert Eligible(groups, ks[..i + 1]) == Eligible(groups, ks[..i]) + [];
      assert Eligible(groups, ks[..i]) + [] == Eligible(groups, ks[..i]);
    } else {
      GroupByConcat(map[], Eligible(groups, ks[..i]), g, ShasumOf, Id);
    }
  }

  /** The second loop of `FindDuplicates`: deleting, while ranging over the
      map, every key whose group has fewer than two files keeps exactly the
      groups of two or more, unchanged. */
  method DropSingletons<K(==), V>(m: map<K, seq<V>>) returns (r: map<K, seq<V>>)
    ensures forall k :: k in r <==> k in m && |m[k]| >= 2
    ensures forall k :: k in r ==> r[k] == m[k]
  {
    var ks := MapKeys(m);
    r := m;
    for i := 0 to |ks|
      invariant forall k :: k in r <==> k in m && (k in ks[..i] ==> |m[k]| >= 2)
      invariant forall k :: k in r ==> r[k] == m[k]
    {
      assert ks[i] !in ks[..i];
      if |r[ks[i]]| < 2 {
        r := r - {ks[i]};
      }
      assert ks[..i + 1] == ks[..i] + [ks[i]];
    }
    assert ks[..|ks|] == ks;
  }

  /** No key list can name a group of the empty map but the empty list. */
  lemma NoKeys(groups: map<int, seq<FileInfo>>, keys: seq<int>)
    requires groups == map[]
    requires |keys| == |groups|
    ensures keys == []
  {
  }

  /** `FindDuplicates`: `sizeGroups` is created empty and nothing fills it,
      so no group reaches the second pass and the result is always an empty
      map with no error, whatever the bundle holds. */
  method FindDuplicates(root: FileInfo) returns (dups: map<string, seq<FileInfo>>, err: Option<string>)
    ensures dups == map[] && err == None
  {
    var sizeGroups: map<int, seq<FileInfo>> := map[];
    var grouped;
    ghost var keys;
    grouped, keys := GroupSizeGroups(sizeGroups);
    NoKeys(sizeGroups, keys);
    dups := DropSingletons(grouped);
    err := None;
  }
}

/** The tree reports of the visualize package (`fileutils.go`): the largest
    files, the file count, the largest modules, the size per file type and
    the groups of duplicate files of an analyzed bundle. */
module FileUtils {
  import opened Seqs
  import opened FileSystem
  import opened TreeWalk

  /** The leaves of the tree in preorder. */
  function Leaves(t: FileInfo): seq<FileInfo>
  {
    Filter(Subtrees(t), IsLeaf)
  }

  /** No node of `s` has a negative size. */
  ghost predicate NoNegativeSizes(s: seq<FileInfo>)
  {
    forall i :: 0 <= i < |s| ==> s[i].size >= 0
  }

  // ------------------------------------------------------------ largest files

  /** A file `FindLargestFiles` lists: a leaf with a positive size. */
  predicate IsSizedLeaf(f: FileInfo)
  {
    IsLeaf(f) && f.size > 0
  }

  /** Every leaf with a positive size, largest first. With no negative sizes
      in a tree whose directories hold the sum of their children, the listed
      sizes add up to the root's size: dropping empty files loses nothing. */
  method FindLargestFiles(root: FileInfo) returns (files: seq<FileInfo>)
    ensures multiset(files) == multiset(Filter(Subtrees(root), IsSizedLeaf))
    ensures SortedDesc(files, SizeOf)
    ensures WellSized(root) && NoNegativeSizes(Subtrees(root)) ==> SumBy(files, SizeOf) == root.size
  {
    var found := Collect(root, IsSizedLeaf, Id);
    GatherSpec(root, IsSizedLeaf, Id);
    MapId(Filter(Subtrees(root), IsSizedLeaf));
    files := SortedCopy(found, SizeOf);
    SumByPermutation(files, found, SizeOf);
    if WellSized(root) && NoNegativeSizes(Subtrees(root)) {
      SizedLeafTotal(Subtrees(root));
      LeafSum(root);
    }
  }

  /** Leaving out the leaves of size zero does not change the leaves' total. */
  lemma {:induction false} SizedLeafTotal(s: seq<FileInfo>)
    requires NoNegativeSizes(s)
    ensures SumBy(Filter(s, IsSizedLeaf), SizeOf) == SumBy(Filter(s, IsLeaf), SizeOf)
  {
    if s != [] {
      var n := |s| - 1;
      assert NoNegativeSizes(s[..n]) by {
        forall i | 0 <= i < n
          ensures s[..n][i].size >= 0
        {
          assert s[..n][i] == s[i];
        }
      }
      SizedLeafTotal(s[..n]);
      FilterSumStep(s, IsSizedLeaf, SizeOf);
      FilterSumStep(s, IsLeaf, SizeOf);
    }
  }

  // ------------------------------------------------------------ file count

  /** The number of leaves; a root without children counts as one file. An
      empty directory below the root is a leaf and so counts as a file too. */
  method CountFiles(root: FileInfo) returns (count: int)
    ensures count == |Leaves(root)|
    decreases root
  {
    if root.children == [] {
      LoneLeaf(root);
      return 1;
    }
    LeafCountStart(root);
    count := 0;
    var k := 0;
    while k < |root.children|
      invariant 0 <= k <= |root.children|
      invariant count == |Filter(SubtreesOf(root, k), IsLeaf)|
    {
      var child := root.children[k];
      LeafCountStep(root, k);
      if child.children == [] {
        LoneLeaf(child);
        count := count + 1;
      } else {
        var sub := CountFiles(child);
        count := count + sub;
      }
      k := k + 1;
    }
  }

  /** A node without children is its own only leaf. */
  lemma LoneLeaf(t: FileInfo)
    requires t.children == []
    ensures Leaves(t) == [t]
  {
    assert Subtrees(t) == [t];
    assert [t][..0] == [];
  }

  /** A node with children is not a leaf itself. */
  lemma LeafCountStart(t: FileInfo)
    requires t.children != []
    ensures Filter(SubtreesOf(t, 0), IsLeaf) == []
  {
    assert [t][..0] == [];
  }

  /** The leaves of the first `k + 1` children: those of the first `k`, then
      those of child `k`. */
  lemma LeafCountStep(t: FileInfo, k: nat)
    requires k < |t.children|
    ensures |Filter(SubtreesOf(t, k + 1), IsLeaf)| == |Filter(SubtreesOf(t, k), IsLeaf)| + |Leaves(t.children[k])|
  {
    FilterSubtreesStep(t, k + 1, IsLeaf);
  }

  /** Every tree has at least one leaf, so the count is never zero. */
  lemma {:induction false} LeavesExist(t: FileInfo)
    ensures |Leaves(t)| >= 1
    decreases t
  {
    var n := |t.children|;
    if n == 0 {
      assert Subtrees(t) == [t];
      assert [t][..0] == [];
    } else {
      var c := t.children[n - 1];
      LeavesExist(c);
      FilterSubtreesStep(t, n, IsLeaf);
    }
  }

  // ------------------------------------------------------------ largest modules

  /** The total size of the leaves directly inside `f`. */
  function DirectLeafSize(f: FileInfo): int
  {
    SumBy(Filter(f.children, IsLeaf), SizeOf)
  }

  /** A directory reported as a module: it has children, and the leaves
      directly inside it have a positive total size. */
  predicate IsModule(f: FileInfo)
  {
    f.children != [] && DirectLeafSize(f) > 0
  }

  /** The record reported for a module: its path and children, the size of
      its direct leaves, type "directory" and no checksum. */
  function ModuleOf(f: FileInfo): FileInfo
  {
    FileInfo(f.relativePath, DirectLeafSize(f), "", "directory", f.children)
  }

  /** The inner `traverse` of `FindLargestModules`: the modules of `t`'s
      subtree in postorder, each directory after the modules below it. */
  method ModuleWalk(t: FileInfo) returns (r: seq<FileInfo>)
    ensures r == GatherPost(t, IsModule, ModuleOf)
    decreases t
  {
    r := [];
    if t.children != [] {
      var total := 0;
      var k := 0;
      assert t.children[..0] == [];
      while k < |t.children|
        invariant 0 <= k <= |t.children|
        invariant total == SumBy(Filter(t.children[..k], IsLeaf), SizeOf)
        invariant r == GatherPostOf(t, IsModule, ModuleOf, k)
      {
        var child := t.children[k];
        DirectLeafStep(t.children, k);
        if child.children == [] {
          total := total + child.size;
        }
        var sub := ModuleWalk(child);
        r := r + sub;
        k := k + 1;
      }
      assert t.children[..k] == t.children;
      if total > 0 {
        r := r + [FileInfo(t.relativePath, total, "", "directory", t.children)];
      }
    }
  }

  /** The size of the leaves among the first `k + 1` children. */
  lemma DirectLeafStep(cs: seq<FileInfo>, k: nat)
    requires k < |cs|
    ensures SumBy(Filter(cs[..k + 1], IsLeaf), SizeOf) ==
      SumBy(Filter(cs[..k], IsLeaf), SizeOf) + (if IsLeaf(cs[k]) then cs[k].size else 0)
  {
    FilterSumStep(cs[..k + 1], IsLeaf, SizeOf);
    assert cs[..k + 1][..k] == cs[..k];
  }

  /** The modules strictly below the root, largest first. */
  method FindLargestModules(root: FileInfo) returns (modules: seq<FileInfo>)
    ensures multiset(modules) == multiset(Map(Filter(Descendants(root), IsModule), ModuleOf))
    ensures SortedDesc(modules, SizeOf)
  {
    var found := ModulesBelow(root);
    GatheredDescendants(root, IsModule, ModuleOf);
    modules := SortedCopy(found, SizeOf);
  }

  /** The outer loop of `FindLargestModules`: `traverse` on each child of
      the root in turn, the root itself never reported. */
  method ModulesBelow(root: FileInfo) returns (found: seq<FileInfo>)
    ensures found == GatherPostOf(root, IsModule, ModuleOf, |root.children|)
  {
    found := [];
    var k := 0;
    while k < |root.children|
      invariant 0 <= k <= |root.children|
      invariant found == GatherPostOf(root, IsModule, ModuleOf, k)
    {
      var sub := ModuleWalk(root.children[k]);
      found := found + sub;
      k := k + 1;
    }
  }

  // ------------------------------------------------------------ type breakdown

  /** One row of the breakdown: a file type and the bytes of its files. The
      percentage column is left out (floating point). */
  datatype TypeBreakdown = TypeBreakdown(fileType: string, size: int)

  function BreakdownSize(b: TypeBreakdown): int { b.size }

  function BreakdownType(b: TypeBreakdown): string { b.fileType }

  /** The type a leaf is counted under: its own, or "unknown" when it has none. */
  function TypeLabel(f: FileInfo): (name: string)
    ensures name != ""
    ensures f.fileType != "" ==> name == f.fileType
  {
    if f.fileType == "" then "unknown" else f.fileType
  }

  /** Each label of `leaves` mapped to the bytes of the leaves under it. */
  ghost predicate TotalsOf(totals: map<string, int>, leaves: seq<FileInfo>)
  {
    && totals.Keys == KeySet(leaves, TypeLabel)
    && forall k :: k in totals ==> totals[k] == KeyTotal(leaves, TypeLabel, SizeOf, k)
  }

  /** Rows listing each entry of `totals` exactly once. */
  ghost predicate RowsOf(rows: seq<TypeBreakdown>, totals: map<string, int>)
  {
    && KeySet(rows, BreakdownType) == totals.Keys
    && DistinctKeys(rows, BreakdownType)
    && forall i :: 0 <= i < |rows| ==> rows[i].fileType in totals && rows[i].size == totals[rows[i].fileType]
  }

  /** The bytes of the leaves per type, one row per type that occurs, largest
      first. The rows account for every leaf byte, so in a tree whose
      directories hold the sum of their children they add up to the root's size. */
  method CalculateTypeBreakdown(root: FileInfo) returns (result: seq<TypeBreakdown>)
    ensures KeySet(result, BreakdownType) == KeySet(Leaves(root), TypeLabel)
    ensures DistinctKeys(result, BreakdownType)
    ensures forall i :: 0 <= i < |result| ==>
      result[i].size == KeyTotal(Leaves(root), TypeLabel, SizeOf, result[i].fileType)
    ensures SortedDesc(result, BreakdownSize)
    ensures SumBy(result, BreakdownSize) == SumBy(Leaves(root), SizeOf)
    ensures WellSized(root) ==> SumBy(result, BreakdownSize) == root.size
  {
    var totals := AddUpCollect(root, IsLeaf, TypeLabel, SizeOf, map[]);
    AddUpTreeSpec(map[], root, IsLeaf, TypeLabel, SizeOf);
    AddUpIsTotals(Leaves(root));
    var rows := BreakdownRows(totals);
    result := SortedCopy(rows, BreakdownSize);
    RowsPermutation(rows, result, totals);
    RowsTotal(result, totals, Leaves(root));
    if WellSized(root) {
      LeafSum(root);
    }
  }

  /** Adding up the leaves' sizes per label gives their totals. */
  lemma AddUpIsTotals(leaves: seq<FileInfo>)
    ensures TotalsOf(AddUp(map[], leaves, TypeLabel, SizeOf), leaves)
  {
    var totals := AddUp(map[], leaves, TypeLabel, SizeOf);
    forall k
      ensures k in totals <==> k in KeySet(leaves, TypeLabel)
      ensures k in totals ==> totals[k] == KeyTotal(leaves, TypeLabel, SizeOf, k)
    {
      AddUpTotals(leaves, TypeLabel, SizeOf, k);
    }
  }

  /** Turns the per-type totals into rows, taking the types in whatever order
      the map hands them out. */
  method BreakdownRows(totals: map<string, int>) returns (rows: seq<TypeBreakdown>)
    ensures RowsOf(rows, totals)
  {
    var keys := MapKeys(totals);
    rows := [];
    var i := 0;
    while i < |keys|
      invariant 0 <= i <= |keys|
      invariant |rows| == i
      invariant forall j :: 0 <= j < i ==> keys[j] in totals && rows[j] == TypeBreakdown(keys[j], totals[keys[j]])
    {
      assert keys[i] in keys;
      rows := rows + [TypeBreakdown(keys[i], totals[keys[i]])];
      i := i + 1;
    }
    RowsForKeys(rows, keys, totals);
  }

  /** One row per key, for keys that list the map's keys once each, lists
      each total once. */
  lemma RowsForKeys(rows: seq<TypeBreakdown>, keys: seq<string>, totals: map<string, int>)
    requires forall k :: k in keys <==> k in totals
    requires forall i, j :: 0 <= i < j < |keys| ==> keys[i] != keys[j]
    requires |rows| == |keys|
    requires forall j :: 0 <= j < |keys| ==> keys[j] in totals && rows[j] == TypeBreakdown(keys[j], totals[keys[j]])
    ensures RowsOf(rows, totals)
  {
    forall k
      ensures k in KeySet(rows, BreakdownType) <==> k in totals
    {
      if k in totals {
        var j :| 0 <= j < |keys| && keys[j] == k;
        assert BreakdownType(rows[j]) == k;
      }
    }
  }

  /** Rearranged rows still list each total once. */
  lemma RowsPermutation(rows: seq<TypeBreakdown>, result: seq<TypeBreakdown>, totals: map<string, int>)
    requires RowsOf(rows, totals) && multiset(rows) == multiset(result)
    ensures RowsOf(result, totals)
  {
    KeySetPermutation(rows, result, BreakdownType);
    DistinctPermutation(rows, result, BreakdownType);
    forall i | 0 <= i < |result|
      ensures result[i].fileType in totals && result[i].size == totals[result[i].fileType]
    {
      assert result[i] in multiset(rows);
    }
  }

  /** Rows listing every label's total once add up to all the leaves' bytes. */
  lemma RowsTotal(rows: seq<TypeBreakdown>, totals: map<string, int>, leaves: seq<FileInfo>)
    requires RowsOf(rows, totals) && TotalsOf(totals, leaves)
    ensures forall i :: 0 <= i < |rows| ==> rows[i].size == KeyTotal(leaves, TypeLabel, SizeOf, rows[i].fileType)
    ensures SumBy(rows, BreakdownSize) == SumBy(leaves, SizeOf)
  {
    RowsKeysTotal(rows, leaves);
    KeysTotalAll(leaves, TypeLabel, SizeOf, KeySet(rows, BreakdownType));
  }

  /** Rows with distinct types, each holding its type's total, add up to the
      total over the types they name. */
  lemma {:induction false} RowsKeysTotal(rows: seq<TypeBreakdown>, leaves: seq<FileInfo>)
    requires DistinctKeys(rows, BreakdownType)
    requires forall i :: 0 <= i < |rows| ==> rows[i].size == KeyTotal(leaves, TypeLabel, SizeOf, rows[i].fileType)
    ensures SumBy(rows, BreakdownSize) == KeysTotal(leaves, TypeLabel, SizeOf, KeySet(rows, BreakdownType))
  {
    if rows == [] {
      KeysTotalNone(leaves, TypeLabel, SizeOf);
      assert KeySet(rows, BreakdownType) == {};
    } else {
      var n := |rows| - 1;
      var p := rows[..n];
      assert rows == p + [rows[n]];
      RowsKeysTotal(p, leaves);
      KeySetSnoc(p, rows[n], BreakdownType);
      assert rows[n].fileType !in KeySet(p, BreakdownType);
      KeysTotalAdd(leaves, TypeLabel, SizeOf, KeySet(p, BreakdownType), rows[n].fileType);
    }
  }

  // ------------------------------------------------------------ duplicates

  /** A group of identical files. The percentage column is left out
      (floating point). */
  datatype DuplicateGroup = DuplicateGroup(
    files: seq<FileInfo>,
    size: int,
    wastedSpace: int,
    totalWasted: int)

  function Wasted(g: DuplicateGroup): int { g.wastedSpace }

  /** A file that takes part in duplicate detection: a leaf with a checksum. */
  predicate IsHashedLeaf(f: FileInfo)
  {
    IsLeaf(f) && f.shasum != ""
  }

  /** Files are duplicates when they agree on size and checksum. The Go code
      joins the two as the string `"%d-%s"`; that string determines the pair,
      since the decimal size ends at the first `-` after its digits. */
  function DupKey(f: FileInfo): (int, string)
  {
    (f.size, f.shasum)
  }

  /** The key of a group: that of its first file. */
  function GroupKey(g: DuplicateGroup): (int, string)
  {
    if g.files == [] then (0, "") else DupKey(g.files[0])
  }

  /** The leaves with a checksum, in preorder. */
  function Hashed(t: FileInfo): seq<FileInfo>
  {
    Filter(Subtrees(t), IsHashedLeaf)
  }

  /** `g` reports one key shared by at least two of the files `hashed`: all of
      them, in walk order, with the size of one copy and the bytes taken by
      the extra copies. */
  ghost predicate IsDuplicateGroup(g: DuplicateGroup, hashed: seq<FileInfo>)
  {
    && |g.files| >= 2
    && g.files == Bucket(hashed, DupKey, Id, GroupKey(g))
    && g.size == g.files[0].size
    && g.wastedSpace == g.size * (|g.files| - 1)
  }

  /** Groups of `hashed`, one per key at most. */
  ghost predicate GroupsOf(gs: seq<DuplicateGroup>, hashed: seq<FileInfo>)
  {
    && (forall i :: 0 <= i < |gs| ==> IsDuplicateGroup(gs[i], hashed))
    && DistinctKeys(gs, GroupKey)
  }

  /** The groups of duplicate files, one for each size and checksum shared by
      at least two leaves, most wasted space first; every group carries the
      total wasted space of all groups. */
  method FindDuplicates(root: FileInfo) returns (groups: seq<DuplicateGroup>)
    ensures GroupsOf(groups, Hashed(root))
    ensures forall k :: |Bucket(Hashed(root), DupKey, Id, k)| >= 2 ==> k in KeySet(groups, GroupKey)
    ensures SortedDesc(groups, Wasted)
    ensures forall i :: 0 <= i < |groups| ==> groups[i].totalWasted == SumBy(groups, Wasted)
  {
    var found, total := HashedGroups(root);
    groups := RankGroups(found, total, Hashed(root));
  }

  /** Groups the leaves with a checksum by size and checksum and keeps the
      groups of more than one file; also returns their total wasted space. */
  method HashedGroups(root: FileInfo) returns (found: seq<DuplicateGroup>, total: int)
    ensures GroupsOf(found, Hashed(root))
    ensures forall k :: |Bucket(Hashed(root), DupKey, Id, k)| >= 2 ==> k in KeySet(found, GroupKey)
    ensures total == SumBy(found, Wasted)
  {
    var fileMap := GroupCollect(root, IsHashedLeaf, DupKey, Id, map[]);
    GroupTreeSpec(map[], root, IsHashedLeaf, DupKey, Id);
    GroupedBuckets(Hashed(root));
    ghost var keys;
    found, total, keys := DuplicateGroups(fileMap);
    GroupsForKeys(fileMap, keys, Hashed(root));
  }

  /** Sorts the groups by wasted space, then stores the total in each. */
  method RankGroups(found: seq<DuplicateGroup>, total: int, ghost hashed: seq<FileInfo>) returns (groups: seq<DuplicateGroup>)
    requires GroupsOf(found, hashed) && total == SumBy(found, Wasted)
    ensures GroupsOf(groups, hashed)
    ensures KeySet(groups, GroupKey) == KeySet(found, GroupKey)
    ensures SortedDesc(groups, Wasted)
    ensures forall i :: 0 <= i < |groups| ==> groups[i].totalWasted == SumBy(groups, Wasted)
  {
    var a := new DuplicateGroup[|found|](i requires 0 <= i < |found| => found[i]);
    assert a[..] == found;
    SortDescending(a, Wasted);
    ghost var sorted := a[..];
    PermutedGroups(found, sorted, hashed);
    SetTotalWasted(a, total);
    groups := a[..];
    Restamped(sorted, groups, total, hashed);
  }

  /** Grouping the files by key stores each key's bucket, and every
      non-empty bucket. */
  lemma GroupedBuckets(hashed: seq<FileInfo>)
    ensures forall k :: k in GroupBy(map[], hashed, DupKey, Id) ==>
      GroupBy(map[], hashed, DupKey, Id)[k] == Bucket(hashed, DupKey, Id, k)
    ensures forall k :: Bucket(hashed, DupKey, Id, k) != [] ==> k in GroupBy(map[], hashed, DupKey, Id)
  {
    forall k
      ensures k in GroupBy(map[], hashed, DupKey, Id) ==>
        GroupBy(map[], hashed, DupKey, Id)[k] == Bucket(hashed, DupKey, Id, k)
      ensures Bucket(hashed, DupKey, Id, k) != [] ==> k in GroupBy(map[], hashed, DupKey, Id)
    {
      GroupByBuckets(map[], hashed, DupKey, Id, k);
    }
  }

  /** The loop over the grouped files: one group for every key with more
      than one file, in the order the map hands out its keys, and the running
      total of the wasted space. */
  method DuplicateGroups(fileMap: map<(int, string), seq<FileInfo>>)
    returns (found: seq<DuplicateGroup>, total: int, ghost keys: seq<(int, string)>)
    ensures forall k :: k in keys <==> k in fileMap
    ensures forall i, j :: 0 <= i < j < |keys| ==> keys[i] != keys[j]
    ensures found == GroupsFor(fileMap, keys)
    ensures total == SumBy(found, Wasted)
  {
    var ks := MapKeys(fileMap);
    keys := ks;
    found := [];
    total := 0;
    var i := 0;
    while i < |ks|
      invariant 0 <= i <= |ks|
      invariant found == GroupsFor(fileMap, ks[..i])
      invariant total == SumBy(found, Wasted)
    {
      assert ks[..i + 1][..i] == ks[..i];
      var files := fileMap[ks[i]];
      if |files| > 1 {
        var wasted := files[0].size * (|files| - 1);
        var g := DuplicateGroup(files, files[0].size, wasted, 0);
        assert (found + [g])[..|found|] == found;
        total := total + wasted;
        found := found + [g];
      }
      i := i + 1;
    }
    assert ks[..i] == ks;
  }

  /** The groups the loop builds from `keys`, in that order. */
  function GroupsFor(fileMap: map<(int, string), seq<FileInfo>>, keys: seq<(int, string)>): seq<DuplicateGroup>
    requires forall k :: k in keys ==> k in fileMap
  {
    if keys == [] then []
    else
      var n := |keys| - 1;
      var files := fileMap[keys[n]];
      GroupsFor(fileMap, keys[..n]) +
        if |files| > 1 then [DuplicateGroup(files, files[0].size, files[0].size * (|files| - 1), 0)] else []
  }

  /** For keys of the map, each listed once, the loop reports a group for
      exactly the keys with more than one file. */
  lemma {:induction false} GroupsForKeys(fileMap: map<(int, string), seq<FileInfo>>, keys: seq<(int, string)>, hashed: seq<FileInfo>)
    requires forall k :: k in keys ==> k in fileMap
    requires forall i, j :: 0 <= i < j < |keys| ==> keys[i] != keys[j]
    requires forall k :: k in fileMap ==> fileMap[k] == Bucket(hashed, DupKey, Id, k)
    ensures GroupsOf(GroupsFor(fileMap, keys), hashed)
    ensures forall k :: k in KeySet(GroupsFor(fileMap, keys), GroupKey) <==> k in keys && |fileMap[k]| >= 2
  {
    if keys != [] {
      var n := |keys| - 1;
      var p := keys[..n];
      var k := keys[n];
      GroupsForKeys(fileMap, p, hashed);
      var files := fileMap[k];
      var before := GroupsFor(fileMap, p);
      if |files| > 1 {
        var g := DuplicateGroup(files, files[0].size, files[0].size * (|files| - 1), 0);
        BucketKeys(hashed, DupKey, k);
        assert GroupKey(g) == k;
        assert k !in p;
        KeySetSnoc(before, g, GroupKey);
        DistinctSnoc(before, g, GroupKey);
        assert IsDuplicateGroup(g, hashed);
      } else {
        assert GroupsFor(fileMap, keys) == before;
      }
    }
  }

  /** Sorting the groups keeps what they report and their total. */
  lemma PermutedGroups(found: seq<DuplicateGroup>, sorted: seq<DuplicateGroup>, hashed: seq<FileInfo>)
    requires GroupsOf(found, hashed) && multiset(found) == multiset(sorted)
    ensures GroupsOf(sorted, hashed)
    ensures KeySet(sorted, GroupKey) == KeySet(found, GroupKey)
    ensures SumBy(sorted, Wasted) == SumBy(found, Wasted)
  {
    DistinctPermutation(found, sorted, GroupKey);
    KeySetPermutation(found, sorted, GroupKey);
    SumByPermutation(sorted, found, Wasted);
    forall i | 0 <= i < |sorted|
      ensures IsDuplicateGroup(sorted[i], hashed)
    {
      assert sorted[i] in multiset(found);
    }
  }

  /** The last loop of `FindDuplicates`: stores the total in every group. */
  method SetTotalWasted(a: array<DuplicateGroup>, total: int)
    modifies a
    ensures forall j :: 0 <= j < a.Length ==> a[j] == old(a[j]).(totalWasted := total)
  {
    var i := 0;
    while i < a.Length
      invariant 0 <= i <= a.Length
      invariant forall j :: 0 <= j < i ==> a[j] == old(a[j]).(totalWasted := total)
      invariant forall j :: i <= j < a.Length ==> a[j] == old(a[j])
    {
      a[i] := a[i].(totalWasted := total);
      i := i + 1;
    }
  }

  /** Storing the total in every group changes nothing else. */
  lemma Restamped(sorted: seq<DuplicateGroup>, groups: seq<DuplicateGroup>, total: int, hashed: seq<FileInfo>)
    requires |groups| == |sorted|
    requires forall j :: 0 <= j < |sorted| ==> groups[j] == sorted[j].(totalWasted := total)
    requires GroupsOf(sorted, hashed) && SortedDesc(sorted, Wasted)
    requires total == SumBy(sorted, Wasted)
    ensures GroupsOf(groups, hashed)
    ensures KeySet(groups, GroupKey) == KeySet(sorted, GroupKey)
    ensures SortedDesc(groups, Wasted)
    ensures forall j :: 0 <= j < |groups| ==> groups[j].totalWasted == SumBy(groups, Wasted)
  {
    SumByPointwise(sorted, groups, Wasted);
    forall j | 0 <= j < |groups|
      ensures groups[j].files == sorted[j].files && GroupKey(groups[j]) == GroupKey(sorted[j])
      ensures IsDuplicateGroup(groups[j], hashed)
    {
    }
    assert KeySet(groups, GroupKey) == KeySet(sorted, GroupKey) by {
      forall y
        ensures y in KeySet(groups, GroupKey) <==> y in KeySet(sorted, GroupKey)
      {
        if y in KeySet(sorted, GroupKey) {
          var j :| 0 <= j < |sorted| && GroupKey(sorted[j]) == y;
          assert GroupKey(groups[j]) == y;
        }
      }
    }
  }

  /** The wasted space of a group is the bytes of all its copies but one:
      every file in it has the group's size. */
  lemma WastedIsExtraCopies(g: DuplicateGroup, hashed: seq<FileInfo>)
    requires IsDuplicateGroup(g, hashed)
    ensures forall i :: 0 <= i < |g.files| ==> DupKey(g.files[i]) == GroupKey(g)
    ensures g.wastedSpace == SumBy(g.files, SizeOf) - g.size
  {
    BucketKeys(hashed, DupKey, GroupKey(g));
    SumByConstant(g.files, SizeOf, g.size);
  }
}

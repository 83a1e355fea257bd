/** The bundle content tree: `FileInfo`, `AnalyzeFile` and `getFileType`
    (internal/analyzer/file_system.go). The directory tree on disk is an input
    value whose entries are already in the order `os.ReadDir` gives (sorted by
    name); SHA-256 is a parameter. */
module FileSystem {
  import opened Results
  import opened Seqs
  import opened Text

  /** A SHA-256 (FIPS 180-4) digest: 32 bytes. */
  type Digest = d: seq<byte> | |d| == 32 witness seq(32, i => 0)

  /** One node of the analysed tree. */
  datatype FileInfo = FileInfo(
    relativePath: string,
    size: int,
    shasum: string,
    fileType: string,
    children: seq<FileInfo>)

  function SizeOf(f: FileInfo): int { f.size }

  function ShasumOf(f: FileInfo): string { f.shasum }

  /** The directory tree as `os.Stat`, `os.ReadDir` and file reads see it.
      The flags say whether each of those calls succeeds on this node. */
  datatype FsNode =
    | RegularFile(name: string, data: seq<byte>, statOk: bool, readOk: bool)
    | Directory(name: string, entries: seq<FsNode>, statOk: bool, listOk: bool)

  /** The failure `AnalyzeFile` reports, with the relative path it hit. */
  datatype FsError =
    | StatFailed(path: string)
    | ReadDirFailed(path: string)
    | HashFailed(path: string)

  // ------------------------------------------------------------ file types

  const FileTypes: set<string> :=
    {"directory", "font", "localization", "asset_catalog", "video", "coreml_model", "binary"}

  /** The table of `getFileType` for a lower-case extension. */
  function ExtType(ext: string): (t: string)
    ensures t in FileTypes && t != "directory"
  {
    if ext in {".otf", ".ttc", ".ttf", ".woff"} then "font"
    else if ext in {".strings", ".xcstrings", ".stringsdict"} then "localization"
    else if ext in {".car", ".xcassets"} then "asset_catalog"
    else if ext in {".mp4", ".mov", ".m4v"} then "video"
    else if ext in {".mlmodel", ".mlmodelc"} then "coreml_model"
    else "binary"
  }

  /** `getFileType`: "directory" for every directory, whatever its name;
      otherwise the table entry for the lower-cased name's extension. */
  function FileType(name: string, isDir: bool): (t: string)
    ensures t in FileTypes
    ensures t == "directory" <==> isDir
  {
    if isDir then "directory" else ExtType(ToLower(Ext(ToLower(name))))
  }

  /** A file's type depends only on its own final extension, compared without
      regard to (ASCII) case. */
  lemma FileTypeByExtension(name: string)
    ensures FileType(name, false) == ExtType(ToLower(Ext(name)))
    ensures FileType(ToLower(name), false) == FileType(name, false)
  {
    ExtToLower(name);
    ToLowerIdempotent(Ext(name));
    ToLowerIdempotent(name);
  }

  // ------------------------------------------------------------ the tree

  /** `filepath.Join(rel, name)` for a relative directory path and one name;
      the root is ".". */
  function ChildPath(rel: string, name: string): string
  {
    if rel == "." then name else rel + "/" + name
  }

  /** Every stat, directory listing and file read below `node` succeeds. */
  predicate Healthy(node: FsNode)
  {
    node.statOk &&
    match node
    case RegularFile(_, _, _, readOk) => readOk
    case Directory(_, entries, _, listOk) =>
      listOk && forall i :: 0 <= i < |entries| ==> Healthy(entries[i])
  }

  /** Total number of bytes held in the regular files below `node`. */
  function TotalBytes(node: FsNode): nat
    decreases node, 1
  {
    match node
    case RegularFile(_, data, _, _) => |data|
    case Directory(_, entries, _, _) => EntriesBytes(node, |entries|)
  }

  function EntriesBytes(dir: FsNode, k: nat): nat
    requires dir.Directory? && k <= |dir.entries|
    decreases dir, 0, k
  {
    if k == 0 then 0 else EntriesBytes(dir, k - 1) + TotalBytes(dir.entries[k - 1])
  }

  /** The bytes of a sequence of strings written one after another. */
  function Utf8Concat(texts: seq<string>): seq<byte>
  {
    if texts == [] then []
    else Utf8Concat(texts[..|texts| - 1]) + Utf8Bytes(texts[|texts| - 1])
  }

  /** A directory's checksum: "" when it has no children, otherwise the hex
      SHA-256 of the text of its children's hex checksums, one after another. */
  function DirChecksum(children: seq<FileInfo>, sha256: seq<byte> -> Digest): string
  {
    if children == [] then "" else Hex(sha256(Utf8Concat(Shasums(children))))
  }

  /** What `AnalyzeFile` returns for `node` at relative path `rel`. */
  function Build(node: FsNode, rel: string, sha256: seq<byte> -> Digest): Result<FileInfo, FsError>
    decreases node, 1
  {
    if !node.statOk then Err(StatFailed(rel))
    else match node
      case RegularFile(name, data, _, readOk) =>
        if !readOk then Err(HashFailed(rel))
        else Ok(FileInfo(rel, |data|, Hex(sha256(data)), FileType(name, false), []))
      case Directory(name, entries, _, listOk) =>
        if !listOk then Err(ReadDirFailed(rel))
        else match AllOk(EntryResults(node, rel, sha256))
          case Err(e) => Err(e)
          case Ok(children) =>
            Ok(FileInfo(rel, SumBy(children, SizeOf), DirChecksum(children, sha256), "directory", children))
  }

  /** The analysis of each entry of `dir`, in entry order, at its joined path. */
  function EntryResults(dir: FsNode, rel: string, sha256: seq<byte> -> Digest): (rs: seq<Result<FileInfo, FsError>>)
    requires dir.Directory?
    ensures |rs| == |dir.entries|
    decreases dir, 0
  {
    seq(|dir.entries|, i requires 0 <= i < |dir.entries| =>
      Build(dir.entries[i], ChildPath(rel, dir.entries[i].name), sha256))
  }

  /** `AnalyzeFile`: stats the node, then either hashes the file or analyses
      every entry of the directory in order, summing sizes and hashing the
      children's checksums. Any failure aborts with that failure. */
  method AnalyzeFile(node: FsNode, rel: string, sha256: seq<byte> -> Digest) returns (r: Result<FileInfo, FsError>)
    ensures r == Build(node, rel, sha256)
    decreases node, 1
  {
    if !node.statOk {
      return Err(StatFailed(rel));
    }
    var fileType := FileType(node.name, node.Directory?);
    if node.Directory? {
      if !node.listOk {
        return Err(ReadDirFailed(rel));
      }
      var entries := AnalyzeEntries(node, rel, sha256);
      if entries.Err? {
        return Err(entries.error);
      }
      var (children, totalSize, checksums) := entries.value;
      var shasum := "";
      if |checksums| > 0 {
        var written := WriteChecksums(checksums);
        shasum := Hex(sha256(written));
      }
      return Ok(FileInfo(rel, totalSize, shasum, fileType, children));
    } else {
      if !node.readOk {
        return Err(HashFailed(rel));
      }
      var shasum := Hex(sha256(node.data));
      return Ok(FileInfo(rel, |node.data|, shasum, fileType, []));
    }
  }

  /** The loop of `AnalyzeFile` over a directory's entries: the children,
      their total size and their checksums, or the first failure. */
  method AnalyzeEntries(node: FsNode, rel: string, sha256: seq<byte> -> Digest)
    returns (r: Result<(seq<FileInfo>, int, seq<string>), FsError>)
    requires node.Directory?
    ensures AllOk(EntryResults(node, rel, sha256)).Err? ==>
      r == Err(AllOk(EntryResults(node, rel, sha256)).error)
    ensures AllOk(EntryResults(node, rel, sha256)).Ok? ==>
      var children := AllOk(EntryResults(node, rel, sha256)).value;
      r == Ok((children, SumBy(children, SizeOf), Shasums(children)))
    decreases node, 0
  {
    ghost var rs := EntryResults(node, rel, sha256);
    var children: seq<FileInfo> := [];
    var totalSize := 0;
    var checksums: seq<string> := [];
    var k := 0;
    while k < |node.entries|
      invariant 0 <= k <= |node.entries|
      invariant AllOk(rs[..k]) == Ok(children)
      invariant totalSize == SumBy(children, SizeOf)
      invariant checksums == Shasums(children)
    {
      var entry := node.entries[k];
      var child := AnalyzeFile(entry, ChildPath(rel, entry.name), sha256);
      assert rs[k] == child;
      AllOkStep(rs, k, children);
      if child.Err? {
        AllOkFirstError(rs, k + 1);
        return Err(child.error);
      }
      assert (children + [child.value])[..|children|] == children;
      children := children + [child.value];
      totalSize := totalSize + child.value.size;
      checksums := checksums + [child.value.shasum];
      k := k + 1;
    }
    assert rs[..k] == rs;
    return Ok((children, totalSize, checksums));
  }

  /** The checksums of `children`, in order. */
  function Shasums(children: seq<FileInfo>): (s: seq<string>)
    ensures |s| == |children|
    ensures forall i :: 0 <= i < |s| ==> s[i] == children[i].shasum
  {
    if children == [] then [] else Shasums(children[..|children| - 1]) + [children[|children| - 1].shasum]
  }

  /** Feeds every checksum's text into the hash stream, in order. */
  method WriteChecksums(checksums: seq<string>) returns (written: seq<byte>)
    ensures written == Utf8Concat(checksums)
  {
    written := [];
    var j := 0;
    while j < |checksums|
      invariant 0 <= j <= |checksums|
      invariant written == Utf8Concat(checksums[..j])
    {
      assert checksums[..j + 1][..j] == checksums[..j];
      written := written + Utf8Bytes(checksums[j]);
      j := j + 1;
    }
    assert checksums[..j] == checksums;
  }

  // ------------------------------------------------------------ properties

  /** Analysis succeeds exactly when every stat, listing and read below the
      node succeeds; otherwise only an error comes back, never a partial tree. */
  lemma {:induction false} BuildOkIffHealthy(node: FsNode, rel: string, sha256: seq<byte> -> Digest)
    ensures Build(node, rel, sha256).Ok? <==> Healthy(node)
    decreases node, 1
  {
    if node.statOk && node.Directory? && node.listOk {
      var rs := EntryResults(node, rel, sha256);
      AllOkValues(rs);
      forall i | 0 <= i < |node.entries|
        ensures rs[i].Ok? <==> Healthy(node.entries[i])
      {
        BuildOkIffHealthy(node.entries[i], ChildPath(rel, node.entries[i].name), sha256);
      }
    }
  }

  /** The children of a built directory: one per entry, in entry order, each
      the analysis of that entry at its joined path. */
  lemma BuildChildren(node: FsNode, rel: string, sha256: seq<byte> -> Digest)
    requires node.Directory? && Build(node, rel, sha256).Ok?
    ensures var cs := Build(node, rel, sha256).value.children;
      && |cs| == |node.entries|
      && forall i :: 0 <= i < |cs| ==>
           Build(node.entries[i], ChildPath(rel, node.entries[i].name), sha256) == Ok(cs[i])
  {
    AllOkValues(EntryResults(node, rel, sha256));
  }

  /** A node's size and the sizes of its children. */
  predicate WellSized(f: FileInfo)
  {
    (f.children != [] ==> f.size == SumBy(f.children, SizeOf)) &&
    forall i :: 0 <= i < |f.children| ==> WellSized(f.children[i])
  }

  /** A built node's size is the number of bytes in the regular files below
      it, and every directory's size is the sum of its children's sizes. */
  lemma {:induction false} BuildSize(node: FsNode, rel: string, sha256: seq<byte> -> Digest)
    requires Build(node, rel, sha256).Ok?
    ensures Build(node, rel, sha256).value.size == TotalBytes(node)
    ensures WellSized(Build(node, rel, sha256).value)
    decreases node, 1
  {
    if node.Directory? {
      var cs := Build(node, rel, sha256).value.children;
      BuildChildren(node, rel, sha256);
      forall i | 0 <= i < |cs|
        ensures cs[i].size == TotalBytes(node.entries[i]) && WellSized(cs[i])
      {
        BuildSize(node.entries[i], ChildPath(rel, node.entries[i].name), sha256);
      }
      SizesMatch(node, cs, |cs|);
      assert cs[..|cs|] == cs;
    }
  }

  /** Children whose sizes are the byte totals of the entries sum to the
      byte total of the directory. */
  lemma {:induction false} SizesMatch(dir: FsNode, cs: seq<FileInfo>, k: nat)
    requires dir.Directory? && |cs| == |dir.entries| && k <= |cs|
    requires forall i :: 0 <= i < |cs| ==> cs[i].size == TotalBytes(dir.entries[i])
    ensures SumBy(cs[..k], SizeOf) == EntriesBytes(dir, k)
  {
    if k > 0 {
      SizesMatch(dir, cs, k - 1);
      assert cs[..k][..k - 1] == cs[..k - 1];
    }
  }

  /** Checksums: a regular file's is the hex SHA-256 of its bytes, a non-empty
      directory's a 64-digit hex string, and an empty directory's is "" with
      size 0. */
  lemma BuildChecksum(node: FsNode, rel: string, sha256: seq<byte> -> Digest)
    requires Build(node, rel, sha256).Ok?
    ensures var f := Build(node, rel, sha256).value;
      && f.relativePath == rel
      && (node.RegularFile? ==> f.shasum == Hex(sha256(node.data)) && f.children == [])
      && (f.shasum == "" <==> node.Directory? && node.entries == [])
      && (f.shasum != "" ==> |f.shasum| == 64 && forall i :: 0 <= i < 64 ==> f.shasum[i] in HexDigits)
      && (node.Directory? && node.entries == [] ==> f.size == 0)
  {
    if node.Directory? {
      BuildChildren(node, rel, sha256);
    }
  }

  /** Every checksum in the tree is either empty or 64 lower-case hex digits. */
  predicate HexChecksums(f: FileInfo)
  {
    && (f.shasum == "" || (|f.shasum| == 64 && forall i :: 0 <= i < 64 ==> f.shasum[i] in HexDigits))
    && forall i :: 0 <= i < |f.children| ==> HexChecksums(f.children[i])
  }

  /** A built tree carries only empty or 64-digit hex checksums. */
  lemma {:induction false} BuildHexChecksums(node: FsNode, rel: string, sha256: seq<byte> -> Digest)
    requires Build(node, rel, sha256).Ok?
    ensures HexChecksums(Build(node, rel, sha256).value)
    decreases node, 1
  {
    BuildChecksum(node, rel, sha256);
    if node.Directory? {
      var cs := Build(node, rel, sha256).value.children;
      BuildChildren(node, rel, sha256);
      forall i | 0 <= i < |cs|
        ensures HexChecksums(cs[i])
      {
        BuildHexChecksums(node.entries[i], ChildPath(rel, node.entries[i].name), sha256);
      }
    }
  }
}

/** `analyzeMachO` (internal/analyzer/mach_o.go): what it reads out of the
    text that `lipo -info` and `otool -l -L` print for one binary. Running
    those tools and `os.Stat` is outside the model: their outcomes are
    parameters, `None` standing for a failed call. */
module MachO {
  import opened Results
  import opened Text

  /** `MachOInfo`. `architecture` is `None` while it is unset (a nil slice).
      `LoadCommands` is never filled by the code and is not modelled. */
  datatype MachOInfo = MachOInfo(
    path: string,
    architecture: Option<seq<string>>,
    minOSVersion: string,
    linkedLibs: seq<string>,
    rPaths: seq<string>,
    size: int)

  /** Why `analyzeMachO` fails: `os.Stat` or `otool` returned an error. */
  datatype MachOError = StatFailed | OtoolFailed

  // ------------------------------------------------------------ lipo

  /** The architectures in `lipo -info` output: the trimmed text after the
      last ':', split on single spaces; `None` (left unset) when the output
      has no ':'. */
  function Architectures(output: string): Option<seq<string>>
  {
    var parts := Split(output, ':');
    if |parts| > 1 then Some(Split(TrimSpace(parts[|parts| - 1]), ' ')) else None
  }

  /** The architectures are found exactly when the output holds a ':'. */
  lemma ArchitecturesFound(output: string)
    ensures Architectures(output).Some? <==> ':' in output
  {
    SplitPrefixCount(output, ':', |output|);
    assert output[..|output|] == output;
  }

  /** They are the pieces of the trimmed text after the last ':', which
      they give back when joined with spaces. */
  lemma ArchitecturesAfterLastColon(output: string)
    requires ':' in output
    ensures Architectures(output).Some?
    ensures Architectures(output).value == Split(TrimSpace(output[LastIndex(output, ':') + 1..|output|]), ' ')
    ensures Join(Architectures(output).value, ' ') == TrimSpace(output[LastIndex(output, ':') + 1..|output|])
  {
    ArchitecturesFound(output);
    SplitLast(output, ':', LastIndex(output, ':'));
    ArchitecturesOfLastPiece(output, output[LastIndex(output, ':') + 1..|output|]);
  }

  /** The architectures are the pieces of the trimmed last piece of the output. */
  lemma ArchitecturesOfLastPiece(output: string, last: string)
    requires Architectures(output).Some?
    requires var parts := Split(output, ':'); parts[|parts| - 1] == last
    ensures Architectures(output).value == Split(TrimSpace(last), ' ')
    ensures Join(Architectures(output).value, ' ') == TrimSpace(last)
  {
    SplitJoin(TrimSpace(last), ' ');
  }

  // ------------------------------------------------------------ otool

  /** The second field of a trimmed look-ahead line that starts with `key`
      ("version 12.0", "path @executable_path/Frameworks"). */
  function SecondField(l: string, key: string): Option<string>
  {
    if HasPrefix(l, key) && |Fields(l)| > 1 then Some(Fields(l)[1]) else None
  }

  /** What line `i` contributes through the two-line look-ahead: when its
      trimmed text contains `marker` and line `i + 2` exists, the second
      field of line `i + 2` if that starts with `key`. The look-ahead never
      reaches past the last line. */
  function LookAhead(lines: seq<string>, i: int, marker: string, key: string): (r: Option<string>)
    ensures r.Some? ==> 0 <= i && i + 2 < |lines|
  {
    if 0 <= i < |lines| && Contains(TrimSpace(lines[i]), marker) && i + 2 < |lines|
    then SecondField(TrimSpace(lines[i + 2]), key)
    else None
  }

  /** The minimum iOS version that line `i` announces, if any. */
  function VersionAt(lines: seq<string>, i: int): Option<string>
  {
    LookAhead(lines, i, "LC_VERSION_MIN_IPHONEOS", "version")
  }

  /** The run path that line `i` announces, if any. */
  function RPathAt(lines: seq<string>, i: int): Option<string>
  {
    LookAhead(lines, i, "LC_RPATH", "path")
  }

  /** The library that line `i` names, if any: the first field of a trimmed
      line that starts with '/' and contains ".dylib". */
  function LibraryAt(lines: seq<string>, i: int): (r: Option<string>)
    ensures r.Some? ==> 0 <= i < |lines| && HasPrefix(TrimSpace(lines[i]), r.value)
  {
    if 0 <= i < |lines| then
      var l := TrimSpace(lines[i]);
      if HasPrefix(l, "/") && Contains(l, ".dylib") then Some(Fields(l)[0]) else None
    else None
  }

  /** What `at` finds on the first `n` lines, in line order. */
  function Found(lines: seq<string>, n: nat, at: (seq<string>, int) -> Option<string>): seq<string>
  {
    if n == 0 then []
    else Found(lines, n - 1, at) + (if at(lines, n - 1).Some? then [at(lines, n - 1).value] else [])
  }

  /** The last thing `at` finds on the first `n` lines, "" when it finds nothing. */
  function LastFound(lines: seq<string>, n: nat, at: (seq<string>, int) -> Option<string>): string
  {
    if n == 0 then ""
    else if at(lines, n - 1).Some? then at(lines, n - 1).value
    else LastFound(lines, n - 1, at)
  }

  /** A value is listed exactly when some line yields it. */
  lemma {:induction false} FoundMembers(lines: seq<string>, n: nat, at: (seq<string>, int) -> Option<string>, v: string)
    ensures v in Found(lines, n, at) <==> exists i :: 0 <= i < n && at(lines, i) == Some(v)
  {
    if n > 0 {
      FoundMembers(lines, n - 1, at, v);
    }
  }

  /** Each line contributes at most one value, so there are at most as many
      values as lines. */
  lemma {:induction false} FoundLength(lines: seq<string>, n: nat, at: (seq<string>, int) -> Option<string>)
    ensures |Found(lines, n, at)| <= n
  {
    if n > 0 {
      FoundLength(lines, n - 1, at);
    }
  }

  /** The last match wins: the value of the last line that yields one. */
  lemma {:induction false} LastFoundIs(lines: seq<string>, n: nat, at: (seq<string>, int) -> Option<string>, i: nat)
    requires i < n && at(lines, i).Some?
    requires forall j :: i < j < n ==> at(lines, j).None?
    ensures LastFound(lines, n, at) == at(lines, i).value
  {
    if i < n - 1 {
      LastFoundIs(lines, n - 1, at, i);
    }
  }

  /** With no match the value stays "". */
  lemma {:induction false} LastFoundNone(lines: seq<string>, n: nat, at: (seq<string>, int) -> Option<string>)
    requires forall j :: 0 <= j < n ==> at(lines, j).None?
    ensures LastFound(lines, n, at) == ""
  {
    if n > 0 {
      LastFoundNone(lines, n - 1, at);
    }
  }

  /** A linked library is listed exactly when some line names it, and
      every listed library is a run of non-space characters that starts with
      '/': the first field of a trimmed line starting with '/'. */
  lemma LinkedLibraryLines(lines: seq<string>, lib: string)
    ensures lib in Found(lines, |lines|, LibraryAt) <==>
      exists i :: 0 <= i < |lines| && LibraryAt(lines, i) == Some(lib)
    ensures lib in Found(lines, |lines|, LibraryAt) ==>
      |lib| >= 1 && lib[0] == '/' && forall k :: 0 <= k < |lib| ==> !IsSpace(lib[k])
  {
    FoundMembers(lines, |lines|, LibraryAt, lib);
    if lib in Found(lines, |lines|, LibraryAt) {
      var i :| 0 <= i < |lines| && LibraryAt(lines, i) == Some(lib);
      LibraryShape(lines, i);
    }
  }

  /** The library a line names starts with '/' and holds no white space. */
  lemma LibraryShape(lines: seq<string>, i: int)
    requires LibraryAt(lines, i).Some?
    ensures var lib := LibraryAt(lines, i).value;
      |lib| >= 1 && lib[0] == '/' && forall k :: 0 <= k < |lib| ==> !IsSpace(lib[k])
  {
    var l := TrimSpace(lines[i]);
    assert HasPrefix(l, "/");
    assert l[0] == '/' && !IsSpace(l[0]);
    assert Fields(l)[0] == l[..WordLength(l)];
  }

  /** The otool loop: over the lines of the output, the last announced
      minimum version, the libraries and the run paths in line order. */
  method ParseOtool(output: string) returns (minOS: string, libs: seq<string>, rpaths: seq<string>)
    ensures var lines := Split(output, '\n');
      && minOS == LastFound(lines, |lines|, VersionAt)
      && libs == Found(lines, |lines|, LibraryAt)
      && rpaths == Found(lines, |lines|, RPathAt)
  {
    var lines := Split(output, '\n');
    minOS, libs, rpaths := "", [], [];
    for i := 0 to |lines|
      invariant minOS == LastFound(lines, i, VersionAt)
      invariant libs == Found(lines, i, LibraryAt)
      invariant rpaths == Found(lines, i, RPathAt)
    {
      var version := ScanLookAhead(lines, i, "LC_VERSION_MIN_IPHONEOS", "version");
      LastFoundStep(lines, i, VersionAt, minOS, version);
      if version.Some? {
        minOS := version.value;
      }
      var lib := ScanLibrary(lines, i);
      FoundStep(lines, i, LibraryAt, libs, lib);
      if lib.Some? {
        libs := libs + [lib.value];
      }
      var rpath := ScanLookAhead(lines, i, "LC_RPATH", "path");
      FoundStep(lines, i, RPathAt, rpaths, rpath);
      if rpath.Some? {
        rpaths := rpaths + [rpath.value];
      }
    }
  }

  /** Line `i` adds what `at` finds on it, if anything. */
  lemma FoundStep(lines: seq<string>, i: nat, at: (seq<string>, int) -> Option<string>, acc: seq<string>, v: Option<string>)
    requires acc == Found(lines, i, at) && v == at(lines, i)
    ensures (if v.Some? then acc + [v.value] else acc) == Found(lines, i + 1, at)
  {
  }

  /** Line `i` overwrites the value with what `at` finds on it, if anything. */
  lemma LastFoundStep(lines: seq<string>, i: nat, at: (seq<string>, int) -> Option<string>, acc: string, v: Option<string>)
    requires acc == LastFound(lines, i, at) && v == at(lines, i)
    ensures (if v.Some? then v.value else acc) == LastFound(lines, i + 1, at)
  {
  }

  /** One look-ahead test of the loop body, on line `i`. */
  method ScanLookAhead(lines: seq<string>, i: nat, marker: string, key: string) returns (r: Option<string>)
    requires i < |lines|
    ensures r == LookAhead(lines, i, marker, key)
  {
    r := None;
    var line := TrimSpace(lines[i]);
    if Contains(line, marker) && i + 2 < |lines| {
      var next := TrimSpace(lines[i + 2]);
      if HasPrefix(next, key) {
        var parts := Fields(next);
        if |parts| > 1 {
          r := Some(parts[1]);
        }
      }
    }
  }

  /** The library test of the loop body, on line `i`. */
  method ScanLibrary(lines: seq<string>, i: nat) returns (r: Option<string>)
    requires i < |lines|
    ensures r == LibraryAt(lines, i)
  {
    r := None;
    var line := TrimSpace(lines[i]);
    if HasPrefix(line, "/") && Contains(line, ".dylib") {
      r := Some(Fields(line)[0]);
    }
  }

  /** `analyzeMachO`: fails when `os.Stat` or `otool` fails; a failing
      `lipo` only leaves the architectures unset. */
  method AnalyzeMachO(path: string, stat: Option<int>, lipo: Option<string>, otool: Option<string>)
    returns (r: Result<MachOInfo, MachOError>)
    ensures stat.None? ==> r == Err(StatFailed)
    ensures stat.Some? && otool.None? ==> r == Err(OtoolFailed)
    ensures stat.Some? && otool.Some? ==>
      var lines := Split(otool.value, '\n');
      r == Ok(MachOInfo(
        path,
        if lipo.Some? then Architectures(lipo.value) else None,
        LastFound(lines, |lines|, VersionAt),
        Found(lines, |lines|, LibraryAt),
        Found(lines, |lines|, RPathAt),
        stat.value))
  {
    if stat.None? {
      return Err(StatFailed);
    }
    var architecture: Option<seq<string>> := None;
    if lipo.Some? {
      var parts := Split(lipo.value, ':');
      if |parts| > 1 {
        architecture := Some(Split(TrimSpace(parts[|parts| - 1]), ' '));
      }
    }
    if otool.None? {
      return Err(OtoolFailed);
    }
    var minOS, libs, rpaths := ParseOtool(otool.value);
    r := Ok(MachOInfo(path, architecture, minOS, libs, rpaths, stat.value));
  }
}

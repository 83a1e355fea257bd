/** `AnalyzeBundlePath` (internal/analyzer/bundle_analyzer.go): picks the
    iOS or Android analysis by the lower-cased final extension of the path,
    and refuses every other extension. The analyses themselves (archive
    extraction and external tools) are outside this model; the result says
    which one runs. */
module BundleRouting {
  import opened Results
  import opened Text

  const AppExtension: string := ".app"
  const IpaExtension: string := ".ipa"
  const XcarchiveExtension: string := ".xcarchive"
  const ApkExtension: string := ".apk"
  const AabExtension: string := ".aab"

  /** The analysis a bundle is routed to. */
  datatype Platform = IOS | Android

  /** `AnalyzeBundlePath`: the platform whose analysis handles the bundle,
      or the "unsupported file extension" error naming the lower-cased
      extension. */
  function AnalyzeBundlePath(path: string): (r: Result<Platform, string>)
    ensures r.Err? <==> ToLower(Ext(path)) !in {AppExtension, IpaExtension, XcarchiveExtension, ApkExtension, AabExtension}
    ensures r.Err? ==> r.error == "unsupported file extension: " + ToLower(Ext(path))
  {
    Route(ToLower(Ext(path)))
  }

  /** The `switch` on the lower-cased extension. */
  function Route(ext: string): Result<Platform, string>
  {
    if ext == AppExtension || ext == IpaExtension || ext == XcarchiveExtension then Ok(IOS)
    else if ext == ApkExtension || ext == AabExtension then Ok(Android)
    else Err("unsupported file extension: " + ext)
  }

  /** A well-formed extension: a '.' followed by characters that are
      neither '.' nor '/'. */
  predicate IsExtension(ext: string)
  {
    |ext| >= 1 && ext[0] == '.' && forall i :: 1 <= i < |ext| ==> ext[i] != '.' && ext[i] != '/'
  }

  /** Appending an extension to any path makes it the path's extension. */
  lemma {:induction false} ExtOfAppended(path: string, ext: string)
    requires IsExtension(ext)
    ensures Ext(path + ext) == ext
    decreases |ext|
  {
    var p := path + ext;
    if |ext| > 1 {
      var n := |ext| - 1;
      assert p[..|p| - 1] == path + ext[..n];
      ExtOfAppended(path, ext[..n]);
      assert ext[..n] + [ext[n]] == ext;
    }
  }

  /** Upper or lower case makes no difference to the routing: ".IPA" goes
      where ".ipa" goes. */
  lemma RoutingIgnoresCase(path: string)
    ensures AnalyzeBundlePath(ToLower(path)) == AnalyzeBundlePath(path)
  {
    ExtToLower(path);
    ToLowerIdempotent(Ext(path));
  }

  /** Only the final extension counts: whatever comes before it, a path
      ending in an extension is routed as that extension alone. */
  lemma FinalExtensionOnly(path: string, ext: string)
    requires IsExtension(ext)
    ensures AnalyzeBundlePath(path + ext) == AnalyzeBundlePath(ext)
  {
    ExtOfAppended(path, ext);
    ExtOfAppended("", ext);
    assert "" + ext == ext;
  }

  /** ".app", ".ipa" and ".xcarchive" bundles, in any case, go to the iOS
      analysis; ".apk" and ".aab" bundles go to the Android one. */
  lemma RoutedByExtension(stem: string, ext: string)
    requires IsExtension(ext)
    ensures ToLower(ext) in {AppExtension, IpaExtension, XcarchiveExtension} ==> AnalyzeBundlePath(stem + ext) == Ok(IOS)
    ensures ToLower(ext) in {ApkExtension, AabExtension} ==> AnalyzeBundlePath(stem + ext) == Ok(Android)
  {
    ExtOfAppended(stem, ext);
  }

  /** An archive of a bundle ("x.app.zip") is refused. */
  lemma ZippedBundleRefused(path: string)
    ensures AnalyzeBundlePath(path + ".zip") == Err("unsupported file extension: .zip")
  {
    ExtOfAppended(path, ".zip");
    assert ToLower(".zip") == ".zip";
    assert ".zip"[1] != AppExtension[1] && ".zip"[1] != IpaExtension[1] && ".zip"[1] != XcarchiveExtension[1];
    assert ".zip"[1] != ApkExtension[1] && ".zip"[1] != AabExtension[1];
    assert "unsupported file extension: " + ".zip" == "unsupported file extension: .zip";
  }

  /** A path whose final element has no '.' has no extension and is refused
      with an empty extension in the message. */
  lemma NoExtensionRefused(path: string)
    requires forall i :: 0 <= i < |path| ==> path[i] != '.'
    ensures AnalyzeBundlePath(path) == Err("unsupported file extension: ")
  {
    ExtEmpty(path);
    assert Ext(path) == [];
    assert ToLower([]) == [];
    assert "unsupported file extension: " + [] == "unsupported file extension: ";
  }
}

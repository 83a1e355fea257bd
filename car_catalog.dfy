/** The grouping step of `ParseCARFile` (`internal/analyzer/car.go`): the
    records `assetutil` prints for a compiled asset catalog are filtered and
    grouped by asset name into one `AssetInfo` per asset, each listing its
    renditions in record order. Running `assetutil`, decoding its JSON and
    computing the catalog's relative path are outside this model: the
    records and the relative path are inputs. */
module CarCatalog {
  import opened Seqs
  import opened Text

  /** One stored rendition of an asset. */
  datatype RenditionInfo = RenditionInfo(
    renditionName: string,
    size: int,
    idiom: string,
    scale: int,
    compression: string,
    shasum: string)

  /** An asset and its renditions. */
  datatype AssetInfo = AssetInfo(name: string, renditions: seq<RenditionInfo>)

  /** The analyzed contents of one `.car` file. */
  datatype CarFileInfo = CarFileInfo(path: string, assets: seq<AssetInfo>)

  /** One record of `assetutil`'s JSON output. */
  datatype AssetsutilCatalog = AssetsutilCatalog(
    assetType: string,
    name: string,
    renditionName: string,
    scale: int,
    idiom: string,
    sizeOnDisk: int,
    compression: string,
    sha1Digest: string)

  /** The prefix `actool` gives the system-generated packed assets. */
  const PackedPrefix: string := "ZZZZPackedAsset-"

  /** A name the parser refuses: empty, or that of a packed asset. */
  predicate Refused(name: string)
  {
    name == "" || HasPrefix(name, PackedPrefix)
  }

  /** A record that gets an asset created for its name: it occupies bytes
      and its asset name is not refused. */
  predicate NamesAsset(c: AssetsutilCatalog)
  {
    c.sizeOnDisk != 0 && !Refused(c.name)
  }

  /** A record that also adds a rendition: its rendition name is not refused either. */
  predicate AddsRendition(c: AssetsutilCatalog)
  {
    NamesAsset(c) && !Refused(c.renditionName)
  }

  function RecordName(c: AssetsutilCatalog): string { c.name }

  function AssetName(a: AssetInfo): string { a.name }

  /** The rendition a record adds. The Go code falls back to the digest for
      an empty rendition name, but that case was already skipped, so the
      fallback never applies and is not written here (the same holds for
      the asset name). */
  function RenditionOf(c: AssetsutilCatalog): RenditionInfo
  {
    RenditionInfo(c.renditionName, c.sizeOnDisk, c.idiom, c.scale, c.compression, c.sha1Digest)
  }

  /** One turn of the grouping loop over `assetMap`. */
  function CatalogStep(m: map<string, AssetInfo>, c: AssetsutilCatalog): map<string, AssetInfo>
  {
    if !NamesAsset(c) then m
    else
      var a := if c.name in m then m[c.name] else AssetInfo(c.name, []);
      m[c.name := if AddsRendition(c) then a.(renditions := a.renditions + [RenditionOf(c)]) else a]
  }

  /** The map the grouping loop holds after the records `cs`. */
  function Catalog(cs: seq<AssetsutilCatalog>): map<string, AssetInfo>
  {
    if cs == [] then map[] else CatalogStep(Catalog(cs[..|cs| - 1]), cs[|cs| - 1])
  }

  /** The names of the assets the records create. */
  ghost function AssetNames(cs: seq<AssetsutilCatalog>): set<string>
  {
    KeySet(Filter(cs, NamesAsset), RecordName)
  }

  /** The renditions the records add to the asset `name`, in record order. */
  function RenditionsOf(cs: seq<AssetsutilCatalog>, name: string): seq<RenditionInfo>
  {
    Bucket(Filter(cs, AddsRendition), RecordName, RenditionOf, name)
  }

  /** The map holds one asset per created name, under that name, with the
      renditions of that name's accepted records in order. */
  lemma {:induction false} CatalogSpec(cs: seq<AssetsutilCatalog>, k: string)
    ensures k in Catalog(cs) <==> k in AssetNames(cs)
    ensures k in Catalog(cs) ==> Catalog(cs)[k] == AssetInfo(k, RenditionsOf(cs, k))
  {
    if cs != [] {
      var n := |cs| - 1;
      var c := cs[n];
      CatalogSpec(cs[..n], k);
      CatalogNamesStep(cs);
      if k !in AssetNames(cs[..n]) {
        RenditionsNeedName(cs[..n], k);
      }
      var added := Filter(cs[..n], AddsRendition);
      if AddsRendition(c) {
        assert (added + [c])[..|added|] == added;
        assert RenditionsOf(cs, k) == RenditionsOf(cs[..n], k) + (if c.name == k then [RenditionOf(c)] else []);
      } else {
        assert Filter(cs, AddsRendition) == added;
      }
    }
  }

  /** One more record adds its name to the created names when it names an asset. */
  lemma CatalogNamesStep(cs: seq<AssetsutilCatalog>)
    requires cs != []
    ensures AssetNames(cs) == AssetNames(cs[..|cs| - 1]) + (if NamesAsset(cs[|cs| - 1]) then {cs[|cs| - 1].name} else {})
  {
    var named := Filter(cs[..|cs| - 1], NamesAsset);
    var c := cs[|cs| - 1];
    if NamesAsset(c) {
      assert Filter(cs, NamesAsset) == named + [c];
      KeySetSnoc(named, c, RecordName);
    } else {
      assert Filter(cs, NamesAsset) == named;
    }
  }

  /** Only a created asset receives renditions. */
  lemma RenditionsNeedName(cs: seq<AssetsutilCatalog>, k: string)
    requires k !in AssetNames(cs)
    ensures RenditionsOf(cs, k) == []
  {
    var added := Filter(cs, AddsRendition);
    if RenditionsOf(cs, k) != [] {
      BucketNonEmpty(added, RecordName, RenditionOf, k);
      var j :| 0 <= j < |added| && added[j].name == k;
      FilterMembers(cs, AddsRendition, added[j]);
      AssetNamesSpec(cs, k);
      assert false;
    }
  }

  /** The grouping loop and the copy of the map into a slice: one asset per
      created name, in the order the map's iteration yields. */
  method GroupRenditions(catalogs: seq<AssetsutilCatalog>) returns (assets: seq<AssetInfo>)
    ensures KeySet(assets, AssetName) == AssetNames(catalogs)
    ensures DistinctKeys(assets, AssetName)
    ensures forall i :: 0 <= i < |assets| ==> assets[i].renditions == RenditionsOf(catalogs, assets[i].name)
  {
    var assetMap: map<string, AssetInfo> := map[];
    for i := 0 to |catalogs|
      invariant assetMap == Catalog(catalogs[..i])
    {
      var c := catalogs[i];
      assert catalogs[..i + 1][..i] == catalogs[..i];
      if c.sizeOnDisk == 0 {
        continue;
      }
      if c.name == "" || HasPrefix(c.name, PackedPrefix) {
        continue;
      }
      var asset;
      if c.name in assetMap {
        asset := assetMap[c.name];
      } else {
        asset := AssetInfo(c.name, []);
        assetMap := assetMap[c.name := asset];
      }
      if c.renditionName == "" || HasPrefix(c.renditionName, PackedPrefix) {
        continue;
      }
      var rendition := RenditionInfo(c.renditionName, c.sizeOnDisk, c.idiom, c.scale, c.compression, c.sha1Digest);
      assetMap := assetMap[c.name := asset.(renditions := asset.renditions + [rendition])];
    }
    assert catalogs[..|catalogs|] == catalogs;
    var keys := MapKeys(assetMap);
    assets := [];
    for j := 0 to |keys|
      invariant |assets| == j
      invariant forall i :: 0 <= i < j ==> assets[i] == assetMap[keys[i]]
    {
      assets := assets + [assetMap[keys[j]]];
    }
    AssetsOfKeys(catalogs, keys, assets);
  }

  /** Listing the map's entries in the order of its keys lists every created
      asset once, with its renditions. */
  lemma AssetsOfKeys(cs: seq<AssetsutilCatalog>, keys: seq<string>, assets: seq<AssetInfo>)
    requires forall k :: k in keys <==> k in Catalog(cs)
    requires forall i, j :: 0 <= i < j < |keys| ==> keys[i] != keys[j]
    requires |assets| == |keys| && forall i :: 0 <= i < |keys| ==> assets[i] == Catalog(cs)[keys[i]]
    ensures KeySet(assets, AssetName) == AssetNames(cs)
    ensures DistinctKeys(assets, AssetName)
    ensures forall i :: 0 <= i < |assets| ==> assets[i].renditions == RenditionsOf(cs, assets[i].name)
  {
    forall i | 0 <= i < |assets|
      ensures assets[i] == AssetInfo(keys[i], RenditionsOf(cs, keys[i]))
    {
      CatalogSpec(cs, keys[i]);
    }
    forall k | k in AssetNames(cs)
      ensures k in KeySet(assets, AssetName)
    {
      CatalogSpec(cs, k);
      var i :| 0 <= i < |keys| && keys[i] == k;
      assert AssetName(assets[i]) == k;
    }
    forall k | k in KeySet(assets, AssetName)
      ensures k in AssetNames(cs)
    {
      var i :| 0 <= i < |assets| && AssetName(assets[i]) == k;
      CatalogSpec(cs, keys[i]);
    }
  }

  /** `ParseCARFile` after `assetutil` ran: the catalog's relative path and
      its grouped assets. */
  method ParseCarRecords(relativePath: string, catalogs: seq<AssetsutilCatalog>) returns (info: CarFileInfo)
    ensures info.path == relativePath
    ensures KeySet(info.assets, AssetName) == AssetNames(catalogs)
    ensures DistinctKeys(info.assets, AssetName)
    ensures forall i :: 0 <= i < |info.assets| ==> info.assets[i].renditions == RenditionsOf(catalogs, info.assets[i].name)
  {
    var assets := GroupRenditions(catalogs);
    info := CarFileInfo(relativePath, assets);
  }

  /** Every stored rendition comes from a record of its asset that passed
      every filter, and copies that record's fields: it is not empty on disk
      and its name is neither empty nor a packed asset's. */
  lemma StoredRendition(cs: seq<AssetsutilCatalog>, name: string, r: RenditionInfo)
    requires r in RenditionsOf(cs, name)
    ensures exists i :: 0 <= i < |cs| && AddsRendition(cs[i]) && cs[i].name == name && RenditionOf(cs[i]) == r
    ensures r.size != 0 && !Refused(r.renditionName)
  {
    var added := Filter(cs, AddsRendition);
    BucketMembers(added, RecordName, RenditionOf, name, r);
    var i :| 0 <= i < |added| && added[i].name == name && RenditionOf(added[i]) == r;
    FilterMembers(cs, AddsRendition, added[i]);
  }

  /** An asset whose records were all turned away at the rendition check is
      still listed, with no renditions; an asset name of a record that is
      empty on disk or refused creates nothing. */
  lemma AssetWithoutRenditions(cs: seq<AssetsutilCatalog>, name: string)
    requires exists i :: 0 <= i < |cs| && NamesAsset(cs[i]) && cs[i].name == name
    requires forall i :: 0 <= i < |cs| && cs[i].name == name ==> !AddsRendition(cs[i])
    ensures name in Catalog(cs) && Catalog(cs)[name].renditions == []
  {
    var i :| 0 <= i < |cs| && NamesAsset(cs[i]) && cs[i].name == name;
    FilterMembers(cs, NamesAsset, cs[i]);
    var j :| 0 <= j < |Filter(cs, NamesAsset)| && Filter(cs, NamesAsset)[j] == cs[i];
    assert RecordName(Filter(cs, NamesAsset)[j]) == name;
    CatalogSpec(cs, name);
    var added := Filter(cs, AddsRendition);
    if RenditionsOf(cs, name) != [] {
      BucketNonEmpty(added, RecordName, RenditionOf, name);
      var k :| 0 <= k < |added| && added[k].name == name;
      FilterMembers(cs, AddsRendition, added[k]);
      assert false;
    }
  }

  /** A name is created exactly when some record carrying it is not empty on
      disk and the name is not refused. */
  lemma AssetNamesSpec(cs: seq<AssetsutilCatalog>, name: string)
    ensures name in AssetNames(cs) <==>
      exists i :: 0 <= i < |cs| && cs[i].name == name && cs[i].sizeOnDisk != 0 && !Refused(name)
  {
    var named := Filter(cs, NamesAsset);
    if name in AssetNames(cs) {
      var j :| 0 <= j < |named| && RecordName(named[j]) == name;
      FilterMembers(cs, NamesAsset, named[j]);
    }
    if exists i :: 0 <= i < |cs| && cs[i].name == name && cs[i].sizeOnDisk != 0 && !Refused(name) {
      var i :| 0 <= i < |cs| && cs[i].name == name && cs[i].sizeOnDisk != 0 && !Refused(name);
      FilterMembers(cs, NamesAsset, cs[i]);
      var j :| 0 <= j < |named| && named[j] == cs[i];
      assert RecordName(named[j]) == name;
    }
  }
}

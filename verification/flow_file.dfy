/** `flow-file.ts`: the zip container a depth flow is saved to and loaded
    from. The zip archive is modelled as the map from entry name to entry
    bytes that `zip`/`unzip` preserve, and the JSON text of the manifest as
    the output of a `stringify` function that a `parse` function reads back.
    Blobs unzipped from an archive are plain blobs: they carry no file name. */
module FlowFile {
  import opened Wrappers
  import opened ImageUtils
  import opened JsNumber
  import Sorting

  type Bytes = seq<Byte>

  /** A browser `Blob`; `fileName` is present exactly when it is a `File`. */
  datatype Blob = Blob(content: Bytes, fileName: Option<string>)

  /** The free-form `processArgs` record, carried through untouched. */
  datatype Json =
    | JNull
    | JBool(b: bool)
    | JNumber(x: real)
    | JString(s: string)
    | JArray(items: seq<Json>)
    | JObject(fields: map<string, Json>)

  /** One layer: its image and its depth map, as blobs or as entry names. */
  datatype LayerEntry<T> = LayerEntry(image: T, depthMap: T)

  /** `Flow = FlowSimple | FlowMultilayer`: a flow is multilayer exactly when
      it has the `inpaintLayers` key, which comes with the two other keys. */
  datatype FlowKind =
    | Simple
    | Multilayer(inpaintLayers: int, inpaintDivisionPoints: seq<int>, layers: seq<LayerEntry<Blob>>)

  datatype Flow = Flow(originalImage: Blob, originalDepthMap: Blob, width: int, height: int,
                       kind: FlowKind, processedBy: string, processArgs: map<string, Json>)

  /** The manifest, `FlowConfig`; the division points travel under the name
      `inpaintBreakpoints`. */
  datatype ConfigKind =
    | SimpleConfig
    | MultilayerConfig(inpaintLayers: int, inpaintBreakpoints: seq<int>, layers: seq<LayerEntry<string>>)

  datatype Config = Config(originalImage: string, originalDepthMap: string, width: int, height: int,
                           kind: ConfigKind, processedBy: string, processArgs: map<string, Json>)

  type Archive = map<string, Bytes>

  const ConfigFileName := "depth-flow.json"
  const DepthMapName := "depth-map.png"
  const DefaultImageName := "image.png"
  const ManifestMissing := "depth-flow.json not found in zip file"
  /** `JSON.parse` throws its own error for a manifest it cannot read; the
      model gives that failure one fixed message. */
  const ManifestUnreadable := "depth-flow.json could not be parsed"

  function NotFound(key: string): string {
    key + " not found in zip file"
  }

  // ---------------------------------------------------------------- names

  /** `getBlobName`: a `File` keeps its own name, a plain blob gets the fallback. */
  function GetBlobName(blob: Blob, fallback: string): (name: string)
    ensures blob.fileName.Some? ==> name == blob.fileName.value
    ensures blob.fileName.None? ==> name == fallback
  {
    match blob.fileName
    case Some(n) => n
    case None => fallback
  }

  /** `layer-${index + 1}.png` */
  function LayerImageName(index: nat): string {
    "layer-" + Decimal(index + 1) + ".png"
  }

  /** `layer-${index + 1}-depth-map.png` */
  function LayerDepthMapName(index: nat): string {
    "layer-" + Decimal(index + 1) + "-depth-map.png"
  }

  /** The entry names of the layers, image before depth map, layer by layer:
      the order in which they are written on save and looked up on load. */
  function LayerKeys(layers: seq<LayerEntry<string>>): (keys: seq<string>)
    ensures |keys| == 2 * |layers|
    ensures forall k :: 0 <= k < |layers| ==> keys[2 * k] == layers[k].image && keys[2 * k + 1] == layers[k].depthMap
  {
    if |layers| == 0 then []
    else
      var rest := LayerKeys(layers[1..]);
      assert forall k :: 1 <= k < |layers| ==> layers[k] == layers[1..][k - 1];
      [layers[0].image, layers[0].depthMap] + rest
  }

  /** Every entry name a manifest refers to, in the order `loadFlowZip`
      looks them up. */
  function Referenced(config: Config): (keys: seq<string>)
    ensures |keys| >= 2 && keys[0] == config.originalImage && keys[1] == config.originalDepthMap
  {
    [config.originalImage, config.originalDepthMap] +
    (match config.kind
     case SimpleConfig => []
     case MultilayerConfig(_, _, layers) => LayerKeys(layers))
  }

  /** A run of digits followed by a text that starts with a non-digit: both
      parts can be read back from the concatenation. */
  lemma DigitsThenSuffix(a: string, sa: string, b: string, sb: string)
    requires AllDigits(a) && AllDigits(b)
    requires |sa| > 0 && !IsDigit(sa[0]) && |sb| > 0 && !IsDigit(sb[0])
    requires a + sa == b + sb
    ensures a == b && sa == sb
  {
    ShorterDigitsDiffer(a, sa, b, sb);
    ShorterDigitsDiffer(b, sb, a, sa);
    assert a == (a + sa)[..|a|];
    assert b == (b + sb)[..|b|];
    assert sa == (a + sa)[|a|..];
    assert sb == (b + sb)[|b|..];
  }

  /** Where the shorter digit run ends, the other text still has a digit. */
  lemma ShorterDigitsDiffer(a: string, sa: string, b: string, sb: string)
    requires AllDigits(b)
    requires |sa| > 0 && !IsDigit(sa[0])
    ensures |a| < |b| ==> a + sa != b + sb
  {
    if |a| < |b| {
      assert (a + sa)[|a|] == sa[0];
      assert (b + sb)[|a|] == b[|a|];
    }
  }

  /** Two names `layer-<digits><suffix>`, each suffix starting with a
      non-digit, are equal only when their digits and suffixes are. */
  lemma PrefixedDigits(a: string, sa: string, b: string, sb: string)
    requires AllDigits(a) && AllDigits(b)
    requires |sa| > 0 && !IsDigit(sa[0]) && |sb| > 0 && !IsDigit(sb[0])
    requires "layer-" + a + sa == "layer-" + b + sb
    ensures a == b && sa == sb
  {
    var prefix := "layer-";
    assert (prefix + a + sa)[|prefix|..] == a + sa;
    assert (prefix + b + sb)[|prefix|..] == b + sb;
    DigitsThenSuffix(a, sa, b, sb);
  }

  /** Layer entry names never collide: two layers get different names, and
      no image name is a depth-map name. */
  lemma LayerNamesDiffer(i: nat, j: nat)
    ensures LayerImageName(i) != LayerDepthMapName(j)
    ensures LayerImageName(i) == LayerImageName(j) ==> i == j
    ensures LayerDepthMapName(i) == LayerDepthMapName(j) ==> i == j
  {
    DecimalIsDigits(i + 1);
    DecimalIsDigits(j + 1);
    var di, dj := Decimal(i + 1), Decimal(j + 1);
    if LayerImageName(i) == LayerDepthMapName(j) {
      PrefixedDigits(di, ".png", dj, "-depth-map.png");
    }
    if LayerImageName(i) == LayerImageName(j) {
      PrefixedDigits(di, ".png", dj, ".png");
      DecimalInjective(i + 1, j + 1);
    }
    if LayerDepthMapName(i) == LayerDepthMapName(j) {
      PrefixedDigits(di, "-depth-map.png", dj, "-depth-map.png");
      DecimalInjective(i + 1, j + 1);
    }
  }

  /** The layer names the manifest lists for `count` layers. */
  function LayerNames(count: nat): (names: seq<LayerEntry<string>>)
    ensures |names| == count
    ensures forall k :: 0 <= k < count ==> names[k] == LayerEntry(LayerImageName(k), LayerDepthMapName(k))
  {
    seq(count, k requires 0 <= k < count => LayerEntry(LayerImageName(k), LayerDepthMapName(k)))
  }

  /** All layer entry names of a saved flow are different. */
  lemma LayerKeysDistinct(count: nat)
    ensures Sorting.Distinct(LayerKeys(LayerNames(count)))
  {
    var keys := LayerKeys(LayerNames(count));
    forall a, b | 0 <= a < b < |keys|
      ensures keys[a] != keys[b]
    {
      KeyOfLayer(count, a);
      KeyOfLayer(count, b);
      LayerNamesDiffer(a / 2, b / 2);
      LayerNamesDiffer(b / 2, a / 2);
    }
  }

  /** Entry `a` of the layer keys is the image (even `a`) or the depth map
      (odd `a`) of layer `a / 2`. */
  lemma KeyOfLayer(count: nat, a: nat)
    requires a < 2 * count
    ensures a / 2 < count
    ensures var key := LayerKeys(LayerNames(count))[a];
            (a % 2 == 0 ==> key == LayerImageName(a / 2)) && (a % 2 == 1 ==> key == LayerDepthMapName(a / 2))
  {
    var i := a / 2;
    assert a == 2 * i + a % 2;
  }

  /** No layer entry name is one of the fixed entry names. */
  lemma LayerKeysNotFixed(count: nat, key: string)
    requires key in LayerKeys(LayerNames(count))
    ensures key != DepthMapName && key != ConfigFileName && key != DefaultImageName
  {
    var keys := LayerKeys(LayerNames(count));
    var a :| 0 <= a < |keys| && keys[a] == key;
    KeyOfLayer(count, a);
    assert key[0] == 'l';
  }

  // ---------------------------------------------------------------- save

  /** The manifest `saveFlowZip` writes for a flow. */
  function ManifestFor(flow: Flow): (config: Config)
    ensures config.originalImage == GetBlobName(flow.originalImage, DefaultImageName)
    ensures config.originalDepthMap == DepthMapName
    ensures config.width == flow.width && config.height == flow.height
    ensures config.processedBy == flow.processedBy && config.processArgs == flow.processArgs
    ensures config.kind.MultilayerConfig? <==> flow.kind.Multilayer?
    ensures flow.kind.Multilayer? ==>
              && config.kind.inpaintLayers == flow.kind.inpaintLayers
              && config.kind.inpaintBreakpoints == flow.kind.inpaintDivisionPoints
              && |config.kind.layers| == |flow.kind.layers|
              && forall k :: 0 <= k < |flow.kind.layers| ==>
                   config.kind.layers[k] == LayerEntry(LayerImageName(k), LayerDepthMapName(k))
  {
    var kind := match flow.kind
      case Simple => SimpleConfig
      case Multilayer(n, points, layers) => MultilayerConfig(n, points, LayerNames(|layers|));
    Config(GetBlobName(flow.originalImage, DefaultImageName), DepthMapName, flow.width, flow.height,
           kind, flow.processedBy, flow.processArgs)
  }

  /** Writes the layer blobs under their names, in order; a later write to
      the same name replaces the earlier one. */
  function AddLayers(archive: Archive, names: seq<LayerEntry<string>>, blobs: seq<LayerEntry<Blob>>): (r: Archive)
    requires |names| == |blobs|
    ensures forall key :: key in r <==> key in archive || key in LayerKeys(names)
    ensures forall key :: key in archive && key !in LayerKeys(names) ==> r[key] == archive[key]
    decreases |names|
  {
    if |names| == 0 then archive
    else
      var next := archive[names[0].image := blobs[0].image.content][names[0].depthMap := blobs[0].depthMap.content];
      assert LayerKeys(names) == [names[0].image, names[0].depthMap] + LayerKeys(names[1..]);
      AddLayers(next, names[1..], blobs[1..])
  }

  /** With distinct names every layer blob survives under its own name. */
  lemma {:induction false} AddLayersContents(archive: Archive, names: seq<LayerEntry<string>>, blobs: seq<LayerEntry<Blob>>)
    requires |names| == |blobs| && Sorting.Distinct(LayerKeys(names))
    ensures forall k :: 0 <= k < |names| ==>
              var r := AddLayers(archive, names, blobs);
              r[names[k].image] == blobs[k].image.content && r[names[k].depthMap] == blobs[k].depthMap.content
    decreases |names|
  {
    if |names| > 0 {
      var keys := LayerKeys(names);
      var rest := LayerKeys(names[1..]);
      assert keys == [names[0].image, names[0].depthMap] + rest;
      var next := archive[names[0].image := blobs[0].image.content][names[0].depthMap := blobs[0].depthMap.content];
      assert Sorting.Distinct(rest) by {
        forall a, b | 0 <= a < b < |rest|
          ensures rest[a] != rest[b]
        {
          assert rest[a] == keys[a + 2] && rest[b] == keys[b + 2];
        }
      }
      AddLayersContents(next, names[1..], blobs[1..]);
      assert names[0].image !in rest && names[0].depthMap !in rest by {
        forall a | 0 <= a < |rest|
          ensures rest[a] != names[0].image && rest[a] != names[0].depthMap
        {
          assert rest[a] == keys[a + 2];
        }
      }
      assert names[0].image != names[0].depthMap by {
        assert keys[0] != keys[1];
      }
      forall k | 0 <= k < |names|
        ensures AddLayers(archive, names, blobs)[names[k].image] == blobs[k].image.content
        ensures AddLayers(archive, names, blobs)[names[k].depthMap] == blobs[k].depthMap.content
      {
        if k > 0 {
          assert names[k] == names[1..][k - 1] && blobs[k] == blobs[1..][k - 1];
        }
      }
    }
  }

  /** `saveFlowZip`: the entries of the saved archive, the JSON text of the
      manifest standing as `stringify(manifest)`. The original image is
      written first, then the depth map, then the manifest, then the layers;
      a later entry of the same name replaces an earlier one. */
  function SaveFlowZip(flow: Flow, stringify: Config -> Bytes): (archive: Archive)
    ensures var config := ManifestFor(flow);
            forall key :: key in archive <==> key in Referenced(config) || key == ConfigFileName
  {
    var config := ManifestFor(flow);
    var base := map[config.originalImage := flow.originalImage.content]
                  [config.originalDepthMap := flow.originalDepthMap.content]
                  [ConfigFileName := stringify(config)];
    match flow.kind
    case Simple => base
    case Multilayer(_, _, layers) => AddLayers(base, config.kind.layers, layers)
  }

  /** The manifest and the depth map can never be overwritten by a later
      entry, so they are always stored as written. */
  lemma SaveFixedEntries(flow: Flow, stringify: Config -> Bytes)
    ensures var archive := SaveFlowZip(flow, stringify);
            && ConfigFileName in archive && archive[ConfigFileName] == stringify(ManifestFor(flow))
            && DepthMapName in archive && archive[DepthMapName] == flow.originalDepthMap.content
  {
    if flow.kind.Multilayer? {
      var count := |flow.kind.layers|;
      if ConfigFileName in LayerKeys(LayerNames(count)) {
        LayerKeysNotFixed(count, ConfigFileName);
      }
      if DepthMapName in LayerKeys(LayerNames(count)) {
        LayerKeysNotFixed(count, DepthMapName);
      }
    }
  }

  /** The entry names that the original image's name must avoid. */
  predicate NoCollision(flow: Flow) {
    var name := GetBlobName(flow.originalImage, DefaultImageName);
    && name != DepthMapName
    && name != ConfigFileName
    && (flow.kind.Multilayer? ==> name !in LayerKeys(LayerNames(|flow.kind.layers|)))
  }

  /** A file named like the depth map is overwritten by the depth map: its
      own bytes are not in the saved archive under its name. */
  lemma ImageNamedLikeDepthMap(flow: Flow, stringify: Config -> Bytes)
    requires GetBlobName(flow.originalImage, DefaultImageName) == DepthMapName
    ensures var archive := SaveFlowZip(flow, stringify);
            archive[ManifestFor(flow).originalImage] == flow.originalDepthMap.content
  {
    SaveFixedEntries(flow, stringify);
  }

  // ---------------------------------------------------------------- load

  /** `ensureBlob`: the entry as a plain blob, or an error naming the key. */
  function EnsureBlob(archive: Archive, key: string): (r: Result<Blob>)
    ensures r.Ok? <==> key in archive
    ensures r.Ok? ==> r.value == Blob(archive[key], None)
    ensures r.Err? ==> r.message == NotFound(key)
  {
    if key !in archive then Err(NotFound(key)) else Ok(Blob(archive[key], None))
  }

  /** The position of the first key missing from the archive, or `|keys|`
      when none is. */
  function FirstMissing(archive: Archive, keys: seq<string>): (i: nat)
    ensures i <= |keys|
    ensures forall j :: 0 <= j < i ==> keys[j] in archive
    ensures i < |keys| ==> keys[i] !in archive
  {
    if |keys| == 0 then 0
    else if keys[0] !in archive then 0
    else 1 + FirstMissing(archive, keys[1..])
  }

  /** The first missing key of `[a, b] + rest` is `a`, `b`, or the first
      missing key of `rest` shifted by two. */
  lemma FirstMissingPair(archive: Archive, a: string, b: string, rest: seq<string>)
    ensures var i := FirstMissing(archive, [a, b] + rest);
            && (a !in archive ==> i == 0)
            && (a in archive && b !in archive ==> i == 1)
            && (a in archive && b in archive ==> i == 2 + FirstMissing(archive, rest))
  {
    var keys := [a, b] + rest;
    assert keys[1..] == [b] + rest;
    assert ([b] + rest)[1..] == rest;
  }

  /** `config.layers.map(...)` with `ensureBlob` on the image, then the
      depth map, of each layer in turn: the first missing entry aborts. */
  function LoadLayers(archive: Archive, names: seq<LayerEntry<string>>): (r: Result<seq<LayerEntry<Blob>>>)
    ensures var keys := LayerKeys(names);
            var m := FirstMissing(archive, keys);
            && (r.Ok? <==> m == |keys|)
            && (r.Err? ==> r == Err(NotFound(keys[m])))
    ensures r.Ok? ==> |r.value| == |names|
    ensures r.Ok? ==> forall k :: 0 <= k < |names| ==>
              names[k].image in archive && names[k].depthMap in archive &&
              r.value[k] == LayerEntry(Blob(archive[names[k].image], None), Blob(archive[names[k].depthMap], None))
  {
    if |names| == 0 then Ok([])
    else
      var keys := LayerKeys(names);
      assert keys == [names[0].image, names[0].depthMap] + LayerKeys(names[1..]);
      FirstMissingPair(archive, names[0].image, names[0].depthMap, LayerKeys(names[1..]));
      var image :- EnsureBlob(archive, names[0].image);
      var depthMap :- EnsureBlob(archive, names[0].depthMap);
      var rest :- LoadLayers(archive, names[1..]);
      assert forall k :: 1 <= k < |names| ==> names[k] == names[1..][k - 1];
      Ok([LayerEntry(image, depthMap)] + rest)
  }

  /** `loadFlowZip`, the manifest's JSON text read by `parse`: a missing
      manifest, an unreadable one, and the first entry the manifest names
      that is missing are errors, checked in that order; otherwise the flow
      is multilayer exactly when the manifest is, and every field comes from
      the manifest or from the entry it names. */
  function LoadFlowZip(archive: Archive, parse: Bytes -> Option<Config>): (r: Result<Flow>)
    ensures ConfigFileName !in archive ==> r == Err(ManifestMissing)
    ensures ConfigFileName in archive && parse(archive[ConfigFileName]).None? ==> r == Err(ManifestUnreadable)
    ensures ConfigFileName in archive && parse(archive[ConfigFileName]).Some? ==>
              var config := parse(archive[ConfigFileName]).value;
              var keys := Referenced(config);
              var m := FirstMissing(archive, keys);
              && (m < |keys| ==> r == Err(NotFound(keys[m])))
              && (m == |keys| ==> r.Ok? && LoadedFrom(archive, config, r.value))
  {
    if ConfigFileName !in archive then Err(ManifestMissing)
    else match parse(archive[ConfigFileName])
      case None => Err(ManifestUnreadable)
      case Some(config) =>
        var keys := Referenced(config);
        var layerKeys := if config.kind.MultilayerConfig? then LayerKeys(config.kind.layers) else [];
        assert keys == [config.originalImage, config.originalDepthMap] + layerKeys;
        FirstMissingPair(archive, config.originalImage, config.originalDepthMap, layerKeys);
        var image :- EnsureBlob(archive, config.originalImage);
        var depthMap :- EnsureBlob(archive, config.originalDepthMap);
        match config.kind
        case SimpleConfig =>
          Ok(Flow(image, depthMap, config.width, config.height, Simple, config.processedBy, config.processArgs))
        case MultilayerConfig(n, points, names) =>
          var layers :- LoadLayers(archive, names);
          Ok(Flow(image, depthMap, config.width, config.height, Multilayer(n, points, layers),
                  config.processedBy, config.processArgs))
  }

  /** `flow` is what the manifest describes, every blob read from the entry
      the manifest names: the division points come from `inpaintBreakpoints`
      and `inpaintLayers` is copied whatever the number of layers. */
  ghost predicate LoadedFrom(archive: Archive, config: Config, flow: Flow) {
    && config.originalImage in archive && flow.originalImage == Blob(archive[config.originalImage], None)
    && config.originalDepthMap in archive && flow.originalDepthMap == Blob(archive[config.originalDepthMap], None)
    && flow.width == config.width && flow.height == config.height
    && flow.processedBy == config.processedBy && flow.processArgs == config.processArgs
    && (flow.kind.Multilayer? <==> config.kind.MultilayerConfig?)
    && (flow.kind.Multilayer? ==>
          && flow.kind.inpaintLayers == config.kind.inpaintLayers
          && flow.kind.inpaintDivisionPoints == config.kind.inpaintBreakpoints
          && |flow.kind.layers| == |config.kind.layers|
          && forall k :: 0 <= k < |flow.kind.layers| ==>
               var name := config.kind.layers[k];
               && name.image in archive && name.depthMap in archive
               && flow.kind.layers[k] == LayerEntry(Blob(archive[name.image], None), Blob(archive[name.depthMap], None)))
  }

  // ---------------------------------------------------------------- round trip

  function Unnamed(blob: Blob): (r: Blob)
    ensures r.content == blob.content && r.fileName.None?
  {
    Blob(blob.content, None)
  }

  /** The flow as it comes back from an archive: the same data, every blob a
      plain blob. */
  function Forget(flow: Flow): (r: Flow)
    ensures r.kind.Multilayer? <==> flow.kind.Multilayer?
  {
    var kind := match flow.kind
      case Simple => Simple
      case Multilayer(n, points, layers) =>
        Multilayer(n, points, seq(|layers|, k requires 0 <= k < |layers| =>
          LayerEntry(Unnamed(layers[k].image), Unnamed(layers[k].depthMap))));
    Flow(Unnamed(flow.originalImage), Unnamed(flow.originalDepthMap), flow.width, flow.height,
         kind, flow.processedBy, flow.processArgs)
  }

  /** Loading a saved flow gives the flow back, file names aside, provided
      the JSON text of its manifest reads back as that manifest and the
      original image's name collides with no other entry. */
  lemma SaveLoadRoundTrip(flow: Flow, stringify: Config -> Bytes, parse: Bytes -> Option<Config>)
    requires parse(stringify(ManifestFor(flow))) == Some(ManifestFor(flow))
    requires NoCollision(flow)
    ensures LoadFlowZip(SaveFlowZip(flow, stringify), parse) == Ok(Forget(flow))
  {
    var config := ManifestFor(flow);
    var archive := SaveFlowZip(flow, stringify);
    SaveFixedEntries(flow, stringify);
    assert parse(archive[ConfigFileName]) == Some(config);
    SavedImageIntact(flow, stringify);
    SavedEntriesPresent(flow, stringify);
    var r := LoadFlowZip(archive, parse);
    assert r.Ok? && LoadedFrom(archive, config, r.value);
    if flow.kind.Multilayer? {
      SavedLayersIntact(flow, stringify);
      assert r.value.kind.layers == Forget(flow).kind.layers;
    }
  }

  /** The original image is stored as written when its name collides with
      no later entry. */
  lemma SavedImageIntact(flow: Flow, stringify: Config -> Bytes)
    requires NoCollision(flow)
    ensures var image := ManifestFor(flow).originalImage;
            var archive := SaveFlowZip(flow, stringify);
            image in archive && archive[image] == flow.originalImage.content
  {
    var config := ManifestFor(flow);
    var image := config.originalImage;
    var base := map[image := flow.originalImage.content]
                  [config.originalDepthMap := flow.originalDepthMap.content]
                  [ConfigFileName := stringify(config)];
    assert base[image] == flow.originalImage.content;
  }

  /** Every entry the manifest names is in the saved archive. */
  lemma SavedEntriesPresent(flow: Flow, stringify: Config -> Bytes)
    ensures var keys := Referenced(ManifestFor(flow));
            FirstMissing(SaveFlowZip(flow, stringify), keys) == |keys|
  {
    var keys := Referenced(ManifestFor(flow));
    var archive := SaveFlowZip(flow, stringify);
    forall j | 0 <= j < |keys|
      ensures keys[j] in archive
    {
      assert keys[j] in keys;
    }
  }

  /** Every layer blob is stored under the name the manifest gives it. */
  lemma SavedLayersIntact(flow: Flow, stringify: Config -> Bytes)
    requires flow.kind.Multilayer?
    ensures var archive := SaveFlowZip(flow, stringify);
            var layers := flow.kind.layers;
            var names := LayerNames(|layers|);
            forall k :: 0 <= k < |layers| ==>
              archive[names[k].image] == layers[k].image.content && archive[names[k].depthMap] == layers[k].depthMap.content
  {
    var config := ManifestFor(flow);
    var layers := flow.kind.layers;
    var names := LayerNames(|layers|);
    LayerKeysDistinct(|layers|);
    var base := map[config.originalImage := flow.originalImage.content]
                  [config.originalDepthMap := flow.originalDepthMap.content]
                  [ConfigFileName := stringify(config)];
    AddLayersContents(base, names, layers);
  }
}

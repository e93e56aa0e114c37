/** `multilayer/clip.ts`: layer bounds from division points, and the
    per-pixel depth clipping and visibility masks of one layer. */
module Clip {
  import opened Wrappers
  import opened ImageUtils
  import JsNumber
  import Dilation
  import Sorting

  /** One layer's depth range `[lower, upper]`. */
  datatype LayerBound = LayerBound(lower: int, upper: int)

  const NoDivisionPoints := "divisionPoints must have at least one element"
  const DivisionPointOutOfRange := "divisionPoints should be in range [1, 254]"

  predicate AllInner(points: seq<int>) {
    forall k :: 0 <= k < |points| ==> 0 < points[k] < 255
  }

  function Lowers(bounds: seq<LayerBound>): (r: seq<int>)
    ensures |r| == |bounds|
  {
    seq(|bounds|, k requires 0 <= k < |bounds| => bounds[k].lower)
  }

  function Uppers(bounds: seq<LayerBound>): (r: seq<int>)
    ensures |r| == |bounds|
  {
    seq(|bounds|, k requires 0 <= k < |bounds| => bounds[k].upper)
  }

  function Reverse<T>(s: seq<T>): (r: seq<T>)
    ensures |r| == |s|
    ensures forall k :: 0 <= k < |s| ==> r[k] == s[|s| - 1 - k]
  {
    seq(|s|, k requires 0 <= k < |s| => s[|s| - 1 - k])
  }

  /** `getBoundsForDivisions`: an empty input and a point outside 1..254 are
      rejected, in that order. Otherwise the points, 0 and 255 are sorted and
      each neighbouring pair becomes one layer, listed from the top layer down:
      the first layer ends at 255, the last starts at 0, each layer starts
      where the one below it ends, and the layer ends are exactly the points
      and 255 while the layer starts are exactly the points and 0. */
  function GetBoundsForDivisions(points: seq<int>): (r: Result<seq<LayerBound>>)
    ensures |points| == 0 ==> r == Err(NoDivisionPoints)
    ensures |points| > 0 && !AllInner(points) ==> r == Err(DivisionPointOutOfRange)
    ensures r.Ok? <==> |points| > 0 && AllInner(points)
    ensures r.Ok? ==> |r.value| == |points| + 1
    ensures r.Ok? ==> r.value[0].upper == 255 && r.value[|r.value| - 1].lower == 0
    ensures r.Ok? ==> forall k :: 0 <= k < |r.value| - 1 ==> r.value[k].lower == r.value[k + 1].upper
    ensures r.Ok? ==> forall k :: 0 <= k < |r.value| ==> r.value[k].lower <= r.value[k].upper
    ensures r.Ok? ==> multiset(Uppers(r.value)) == multiset(points + [255])
    ensures r.Ok? ==> multiset(Lowers(r.value)) == multiset([0] + points)
  {
    if |points| == 0 then Err(NoDivisionPoints)
    else if !AllInner(points) then Err(DivisionPointOutOfRange)
    else
      LayersContents(points);
      Ok(Layers(points))
  }

  /** The layers of valid division points, from the top layer down. */
  function Layers(points: seq<int>): (layers: seq<LayerBound>)
    requires |points| > 0 && AllInner(points)
    ensures |layers| == |points| + 1
    ensures layers[0].upper == 255 && layers[|layers| - 1].lower == 0
    ensures forall k :: 0 <= k < |layers| - 1 ==> layers[k].lower == layers[k + 1].upper
    ensures forall k :: 0 <= k < |layers| ==> layers[k].lower <= layers[k].upper
  {
    LayersOf(SortedBounds(points))
  }

  /** The reversed neighbouring pairs of sorted bounds from 0 to 255. */
  function LayersOf(bounds: seq<int>): (layers: seq<LayerBound>)
    requires |bounds| >= 2 && bounds[0] == 0 && bounds[|bounds| - 1] == 255
    requires forall a, b :: 0 <= a < b < |bounds| ==> bounds[a] <= bounds[b]
    ensures |layers| == |bounds| - 1
    ensures layers[0].upper == 255 && layers[|layers| - 1].lower == 0
    ensures forall k :: 0 <= k < |layers| - 1 ==> layers[k].lower == layers[k + 1].upper
    ensures forall k :: 0 <= k < |layers| ==> layers[k].lower <= layers[k].upper
  {
    var pairs := Pairs(bounds);
    var top := Reverse(pairs);
    LayersChain(bounds, pairs, top);
    top
  }

  /** The layer ends are exactly the points and 255, the layer starts
      exactly 0 and the points. */
  lemma LayersContents(points: seq<int>)
    requires |points| > 0 && AllInner(points)
    ensures multiset(Uppers(Layers(points))) == multiset(points + [255])
    ensures multiset(Lowers(Layers(points))) == multiset([0] + points)
  {
    var bounds := SortedBounds(points);
    SortedBoundsContents(points);
    EndsAndStarts(points, bounds, Pairs(bounds), Layers(points));
  }

  /** Reversing the neighbouring pairs keeps their ends (starts), which are
      the bounds without the first (last) element. */
  lemma EndsAndStarts(points: seq<int>, bounds: seq<int>, pairs: seq<LayerBound>, layers: seq<LayerBound>)
    requires |bounds| >= 2
    requires multiset(bounds[1..]) == multiset(points + [255])
    requires multiset(bounds[..|bounds| - 1]) == multiset([0] + points)
    requires |pairs| == |bounds| - 1
    requires forall i :: 0 <= i < |pairs| ==> pairs[i] == LayerBound(bounds[i], bounds[i + 1])
    requires |layers| == |pairs|
    requires forall k :: 0 <= k < |pairs| ==> layers[k] == pairs[|pairs| - 1 - k]
    ensures multiset(Uppers(layers)) == multiset(points + [255])
    ensures multiset(Lowers(layers)) == multiset([0] + points)
  {
    PairsEnds(bounds, pairs);
    ReverseMultiset(Uppers(pairs), Uppers(layers));
    ReverseMultiset(Lowers(pairs), Lowers(layers));
  }

  /** `[0, ...divisionPoints, 255].sort((a, b) => a - b)`: it starts with 0
      and ends with 255. */
  function SortedBounds(points: seq<int>): (bounds: seq<int>)
    requires |points| > 0 && AllInner(points)
    ensures |bounds| == |points| + 2
    ensures bounds[0] == 0 && bounds[|bounds| - 1] == 255
    ensures forall a, b :: 0 <= a < b < |bounds| ==> bounds[a] <= bounds[b]
  {
    var bounds := Sorting.SortNumbers([0] + points + [255]);
    BoundsEnds(points, bounds);
    bounds
  }

  /** Without its first (last) element the sorted bounds hold exactly the
      points and 255 (0 and the points). */
  lemma SortedBoundsContents(points: seq<int>)
    requires |points| > 0 && AllInner(points)
    ensures var bounds := SortedBounds(points);
            && multiset(bounds[1..]) == multiset(points + [255])
            && multiset(bounds[..|bounds| - 1]) == multiset([0] + points)
  {
    BoundsEnds(points, SortedBounds(points));
  }

  /** `bounds.slice(1).map((x, i) => [bounds[i], x])`: each neighbouring
      pair of bounds. */
  function Pairs(bounds: seq<int>): (pairs: seq<LayerBound>)
    requires |bounds| >= 2
    ensures |pairs| == |bounds| - 1
    ensures forall i :: 0 <= i < |pairs| ==> pairs[i] == LayerBound(bounds[i], bounds[i + 1])
  {
    seq(|bounds| - 1, i requires 0 <= i < |bounds| - 1 => LayerBound(bounds[i], bounds[i + 1]))
  }

  /** The reversed pairs of sorted bounds from 0 to 255 run from 255 down
      to 0, each layer starting where the next one ends. */
  lemma LayersChain(bounds: seq<int>, pairs: seq<LayerBound>, layers: seq<LayerBound>)
    requires |bounds| >= 2 && bounds[0] == 0 && bounds[|bounds| - 1] == 255
    requires forall a, b :: 0 <= a < b < |bounds| ==> bounds[a] <= bounds[b]
    requires |pairs| == |bounds| - 1
    requires forall i :: 0 <= i < |pairs| ==> pairs[i] == LayerBound(bounds[i], bounds[i + 1])
    requires |layers| == |pairs|
    requires forall k :: 0 <= k < |pairs| ==> layers[k] == pairs[|pairs| - 1 - k]
    ensures layers[0].upper == 255 && layers[|layers| - 1].lower == 0
    ensures forall k :: 0 <= k < |layers| - 1 ==> layers[k].lower == layers[k + 1].upper
    ensures forall k :: 0 <= k < |layers| ==> layers[k].lower <= layers[k].upper
  {
    assert layers[0] == pairs[|pairs| - 1] == LayerBound(bounds[|bounds| - 2], bounds[|bounds| - 1]);
    assert layers[|layers| - 1] == pairs[0] == LayerBound(bounds[0], bounds[1]);
    forall k | 0 <= k < |layers|
      ensures k < |layers| - 1 ==> layers[k].lower == layers[k + 1].upper
      ensures layers[k].lower <= layers[k].upper
    {
      var i := |pairs| - 1 - k;
      assert layers[k] == pairs[i] == LayerBound(bounds[i], bounds[i + 1]);
      if k < |layers| - 1 {
        assert layers[k + 1] == pairs[i - 1] == LayerBound(bounds[i - 1], bounds[i]);
      }
    }
  }

  /** The sorted bounds start with 0 and end with 255. */
  lemma BoundsEnds(points: seq<int>, bounds: seq<int>)
    requires |points| > 0 && AllInner(points)
    requires |bounds| == |points| + 2 && multiset(bounds) == multiset([0] + points + [255])
    requires forall a, b :: 0 <= a < b < |bounds| ==> bounds[a] <= bounds[b]
    ensures bounds[0] == 0 && bounds[|bounds| - 1] == 255
    ensures multiset(bounds[1..]) == multiset(points + [255])
    ensures multiset(bounds[..|bounds| - 1]) == multiset([0] + points)
  {
    BoundsFirst(points, bounds);
    BoundsLast(points, bounds);
    var all := [0] + points + [255];
    DropFirst(bounds, all);
    DropLast(bounds, all);
    assert all[1..] == points + [255];
    assert all[..|all| - 1] == [0] + points;
  }

  /** Equal multisets with equal first elements stay equal without them. */
  lemma DropFirst(a: seq<int>, b: seq<int>)
    requires |a| > 0 && |b| > 0 && multiset(a) == multiset(b) && a[0] == b[0]
    ensures multiset(a[1..]) == multiset(b[1..])
  {
    assert a == [a[0]] + a[1..];
    assert b == [b[0]] + b[1..];
    forall x
      ensures multiset(a[1..])[x] == multiset(b[1..])[x]
    {
      assert multiset(a)[x] == multiset([a[0]])[x] + multiset(a[1..])[x];
      assert multiset(b)[x] == multiset([b[0]])[x] + multiset(b[1..])[x];
    }
  }

  /** Equal multisets with equal last elements stay equal without them. */
  lemma DropLast(a: seq<int>, b: seq<int>)
    requires |a| > 0 && |b| > 0 && multiset(a) == multiset(b) && a[|a| - 1] == b[|b| - 1]
    ensures multiset(a[..|a| - 1]) == multiset(b[..|b| - 1])
  {
    assert a == a[..|a| - 1] + [a[|a| - 1]];
    assert b == b[..|b| - 1] + [b[|b| - 1]];
    var ma, mb := multiset(a[..|a| - 1]), multiset(b[..|b| - 1]);
    forall x
      ensures ma[x] == mb[x]
    {
      assert multiset(a)[x] == ma[x] + multiset([a[|a| - 1]])[x];
      assert multiset(b)[x] == mb[x] + multiset([b[|b| - 1]])[x];
    }
  }

  lemma BoundsFirst(points: seq<int>, bounds: seq<int>)
    requires AllInner(points)
    requires |bounds| > 0 && multiset(bounds) == multiset([0] + points + [255])
    requires forall a, b :: 0 <= a < b < |bounds| ==> bounds[a] <= bounds[b]
    ensures bounds[0] == 0
  {
    BoundsInRange(points, bounds, 0);
    assert ([0] + points + [255])[0] == 0;
    assert 0 in multiset(bounds);
    var i :| 0 <= i < |bounds| && bounds[i] == 0;
    if i > 0 {
      assert bounds[0] <= bounds[i];
    }
  }

  lemma BoundsLast(points: seq<int>, bounds: seq<int>)
    requires AllInner(points)
    requires |bounds| > 0 && multiset(bounds) == multiset([0] + points + [255])
    requires forall a, b :: 0 <= a < b < |bounds| ==> bounds[a] <= bounds[b]
    ensures bounds[|bounds| - 1] == 255
  {
    BoundsInRange(points, bounds, |bounds| - 1);
    var all := [0] + points + [255];
    assert all[|all| - 1] == 255;
    assert 255 in multiset(bounds);
    var j :| 0 <= j < |bounds| && bounds[j] == 255;
    if j < |bounds| - 1 {
      assert bounds[j] <= bounds[|bounds| - 1];
    }
  }

  lemma BoundsInRange(points: seq<int>, bounds: seq<int>, k: nat)
    requires AllInner(points)
    requires multiset(bounds) == multiset([0] + points + [255])
    requires k < |bounds|
    ensures 0 <= bounds[k] <= 255
  {
    var all := [0] + points + [255];
    assert bounds[k] in multiset(all);
    var i :| 0 <= i < |all| && all[i] == bounds[k];
    if 0 < i < |all| - 1 {
      assert all[i] == points[i - 1];
    }
  }

  /** The ends of neighbouring pairs are the bounds without the first, and
      their starts the bounds without the last. */
  lemma PairsEnds(bounds: seq<int>, pairs: seq<LayerBound>)
    requires |bounds| >= 2
    requires |pairs| == |bounds| - 1
    requires forall i :: 0 <= i < |pairs| ==> pairs[i] == LayerBound(bounds[i], bounds[i + 1])
    ensures Uppers(pairs) == bounds[1..] && Lowers(pairs) == bounds[..|bounds| - 1]
  {
    forall i | 0 <= i < |pairs|
      ensures Uppers(pairs)[i] == bounds[1..][i] && Lowers(pairs)[i] == bounds[..|bounds| - 1][i]
    {
      assert pairs[i] == LayerBound(bounds[i], bounds[i + 1]);
    }
  }

  /** A reversed sequence holds the same elements. */
  lemma {:induction false} ReverseMultiset(s: seq<int>, r: seq<int>)
    requires |r| == |s|
    requires forall k :: 0 <= k < |s| ==> r[k] == s[|s| - 1 - k]
    ensures multiset(r) == multiset(s)
  {
    if |s| > 0 {
      var n := |s| - 1;
      ReverseMultiset(s[1..], r[..n]);
      assert s == [s[0]] + s[1..];
      assert r == r[..n] + [r[n]];
    }
  }

  // ---------------------------------------------------------------- masks

  /** A pixel whose three colour samples are `v` and whose alpha is 255. */
  function Grey(v: Byte): Pixel {
    [v, v, v, 255]
  }

  /** `clipDepthMapWithUpperBound`: every pixel of the clipped map is grey at
      the pixel's depth `R` capped at `upperBound` (stored into a byte), and
      the mask pixel is white exactly where the depth exceeds the bound. */
  function ClipDepthMapWithUpperBound(depthMap: ImageData, upperBound: int): (r: (ImageData, ImageData))
    ensures SameSize(r.0, depthMap) && SameSize(r.1, depthMap)
    ensures forall p: nat, c: nat :: p < PixelCount(depthMap) && c < 3 ==>
              Sample(r.0, p, c) == Clamp(if Sample(depthMap, p, Red) > upperBound then upperBound else Sample(depthMap, p, Red))
    ensures forall p: nat :: p < PixelCount(depthMap) ==> Sample(r.0, p, Alpha) == 255 && Sample(r.1, p, Alpha) == 255
    ensures forall p: nat, c: nat :: p < PixelCount(depthMap) && c < 3 ==>
              (Sample(r.1, p, c) == 255 <==> Sample(depthMap, p, Red) > upperBound) &&
              (Sample(r.1, p, c) == 0 <==> Sample(depthMap, p, Red) <= upperBound)
  {
    var n := |depthMap.pixels|;
    var clipped := seq(n, p requires 0 <= p < n =>
      var d := depthMap.pixels[p][Red];
      Grey(if d > upperBound then Clamp(upperBound) else d));
    var mask := seq(n, p requires 0 <= p < n =>
      Grey(if depthMap.pixels[p][Red] > upperBound then 255 else 0));
    (Image(depthMap.width, depthMap.height, clipped), Image(depthMap.width, depthMap.height, mask))
  }

  /** `getDepthMapMaskByLowerBound`: the mask pixel is white exactly where the
      depth `R` reaches the bound, black elsewhere, always opaque. */
  function GetDepthMapMaskByLowerBound(depthMap: ImageData, lowerBound: int): (mask: ImageData)
    ensures SameSize(mask, depthMap)
    ensures forall p: nat :: p < PixelCount(depthMap) ==> Sample(mask, p, Alpha) == 255
    ensures forall p: nat, c: nat :: p < PixelCount(depthMap) && c < 3 ==>
              (Sample(mask, p, c) == 255 <==> Sample(depthMap, p, Red) >= lowerBound) &&
              (Sample(mask, p, c) == 0 <==> Sample(depthMap, p, Red) < lowerBound)
  {
    var n := |depthMap.pixels|;
    Image(depthMap.width, depthMap.height, seq(n, p requires 0 <= p < n =>
      Grey(if depthMap.pixels[p][Red] >= lowerBound then 255 else 0)))
  }

  /** The pixels masked for inpainting above bound `b` are exactly those
      shown by the lower-bound mask at `b + 1` (not at `b`: see
      `SharedBoundOverlap`). */
  lemma UpperMaskIsLowerMaskAbove(depthMap: ImageData, b: int)
    ensures (ClipDepthMapWithUpperBound(depthMap, b).1) == GetDepthMapMaskByLowerBound(depthMap, b + 1)
  {
    var upper := ClipDepthMapWithUpperBound(depthMap, b).1;
    var lower := GetDepthMapMaskByLowerBound(depthMap, b + 1);
    forall p | 0 <= p < |depthMap.pixels|
      ensures upper.pixels[p] == lower.pixels[p]
    {
    }
  }

  /** Two adjacent layers share their bound `b`: the layer above shows the
      pixels reaching `b`, the layer below keeps the pixels not above `b`.
      The pixels claimed by both are exactly those at depth `b`, and every
      pixel is claimed by at least one of the two. */
  lemma SharedBoundOverlap(depthMap: ImageData, b: int)
    ensures var shown := GetDepthMapMaskByLowerBound(depthMap, b);
            var masked := ClipDepthMapWithUpperBound(depthMap, b).1;
            forall p: nat :: p < PixelCount(depthMap) ==>
              && (Sample(shown, p, Red) == 255 && Sample(masked, p, Red) == 0 <==> Sample(depthMap, p, Red) == b)
              && (Sample(shown, p, Red) == 255 || Sample(masked, p, Red) == 0)
  {
  }

  /** Clipping is idempotent: clipping an already clipped map with the same
      bound changes nothing and masks nothing. */
  lemma ClipIdempotent(depthMap: ImageData, upperBound: int)
    requires 0 <= upperBound
    ensures var clipped := ClipDepthMapWithUpperBound(depthMap, upperBound).0;
            var again := ClipDepthMapWithUpperBound(clipped, upperBound);
            again.0 == clipped &&
            forall p: nat :: p < PixelCount(depthMap) ==> Sample(again.1, p, Red) == 0
  {
    var clipped := ClipDepthMapWithUpperBound(depthMap, upperBound).0;
    var again := ClipDepthMapWithUpperBound(clipped, upperBound);
    forall p | 0 <= p < |clipped.pixels|
      ensures again.0.pixels[p] == clipped.pixels[p]
    {
    }
  }

  // ---------------------------------------------------------------- merging

  /** `postprocessAndMergeDepthMapAndMasks`, the canvas blur standing as the
      function `blur(image, radius)`: the depth map is dilated (maximum
      filter) and blurred, the lower-bound mask is blurred, then channel R of
      the blurred lower mask goes into G and channel R of the upper mask into
      B. The upper mask is not blurred. Either channel copy fails with the
      size message when its source buffer differs in size from the merged
      depth map. */
  function PostprocessAndMerge(blur: (ImageData, real) -> ImageData,
                               depthMap: ImageData, lowerBoundMask: ImageData, upperBoundMask: ImageData,
                               dilateRadius: real, depthBlurRadius: real, maskBlurRadius: real): (r: Result<ImageData>)
    ensures var merged := blur(Dilation.Dilate(depthMap, JsNumber.Round(dilateRadius), Dilation.MaxFilter), depthBlurRadius);
            var lower := blur(lowerBoundMask, maskBlurRadius);
            && (r.Ok? <==> SameSize(lower, merged) && SameSize(upperBoundMask, merged))
            && (!SameSize(lower, merged) ==> r == Err(SizeMismatch))
            && (!SameSize(upperBoundMask, merged) ==> r == Err(SizeMismatch))
            && (r.Ok? ==> SameSize(r.value, merged))
            && (r.Ok? ==> forall p: nat :: p < PixelCount(merged) ==>
                  && Sample(r.value, p, Red) == Sample(merged, p, Red)
                  && Sample(r.value, p, Green) == Sample(lower, p, Red)
                  && Sample(r.value, p, Blue) == Sample(upperBoundMask, p, Red)
                  && Sample(r.value, p, Alpha) == Sample(merged, p, Alpha))
  {
    ChannelNames();
    var dilated := Dilation.Dilate(depthMap, JsNumber.Round(dilateRadius), Dilation.MaxFilter);
    var merged := blur(dilated, depthBlurRadius);
    var lower := blur(lowerBoundMask, maskBlurRadius);
    var withLower :- WriteImageDataChannel(lower, "r", merged, "g");
    WriteImageDataChannel(upperBoundMask, "r", withLower, "b")
  }
}

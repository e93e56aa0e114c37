/** The hand-written pixel-buffer primitives of `image/utils.ts`: buffer
    cloning, colour inversion, single-channel copy and the dimension guard of
    alpha compositing. Dilation lives in module `Dilation`. */
module ImageUtils {
  import opened Wrappers

  /** One sample of a `Uint8ClampedArray`. */
  type Byte = b: int | 0 <= b < 256

  /** The four samples (R, G, B, A) of one pixel. */
  type Pixel = s: seq<Byte> | |s| == 4 witness [0, 0, 0, 0]

  /** A browser `ImageData`. Its flat sample array `data` is kept here as one
      four-sample group per pixel, pixels numbered row by row: flat sample `i`
      is channel `i % 4` of pixel `i / 4`, and the sample at
      `(y * width + x) * 4 + c` is `pixels[y * width + x][c]`. */
  datatype Image = Image(width: nat, height: nat, pixels: seq<Pixel>)

  function PixelCount(img: Image): nat {
    img.width * img.height
  }

  /** The browser guarantees that the sample array holds exactly four samples
      per pixel, that is `data.length == width * height * 4`. */
  type ImageData = img: Image | |img.pixels| == PixelCount(img) witness Image(0, 0, [])

  const Red: nat := 0
  const Green: nat := 1
  const Blue: nat := 2
  const Alpha: nat := 3

  /** Channel `c` of pixel `p`. */
  function Sample(img: ImageData, p: nat, c: nat): Byte
    requires p < PixelCount(img) && c < 4
  {
    img.pixels[p][c]
  }

  predicate SameSize(a: Image, b: Image) {
    a.width == b.width && a.height == b.height
  }

  /** Storing an integer into a `Uint8ClampedArray` saturates it to 0..255. */
  function Clamp(v: int): (b: Byte)
    ensures 0 <= v <= 255 ==> b == v
    ensures v < 0 ==> b == 0
    ensures v > 255 ==> b == 255
  {
    if v < 0 then 0 else if v > 255 then 255 else v
  }

  /** `cloneImageData`: a fresh buffer of the same size holding the same samples. */
  function CloneImageData(img: ImageData): (out: ImageData)
    ensures SameSize(out, img)
    ensures forall p: nat, c: nat :: p < PixelCount(img) && c < 4 ==> Sample(out, p, c) == Sample(img, p, c)
  {
    Image(img.width, img.height, img.pixels)
  }

  /** `invertImageData`: every colour sample becomes `255 - x`; alpha is copied. */
  function InvertImageData(img: ImageData): (out: ImageData)
    ensures SameSize(out, img)
    ensures forall p: nat, c: nat :: p < PixelCount(img) && c < 3 ==> Sample(out, p, c) == 255 - Sample(img, p, c)
    ensures forall p: nat :: p < PixelCount(img) ==> Sample(out, p, Alpha) == Sample(img, p, Alpha)
  {
    Image(img.width, img.height,
      seq(|img.pixels|, p requires 0 <= p < |img.pixels| => InvertPixel(img.pixels[p])))
  }

  function InvertPixel(px: Pixel): Pixel {
    [255 - px[Red], 255 - px[Green], 255 - px[Blue], px[Alpha]]
  }

  /** Inverting twice restores the original buffer. */
  lemma InvertInvolution(img: ImageData)
    ensures InvertImageData(InvertImageData(img)) == img
  {
    var twice := InvertImageData(InvertImageData(img));
    forall p | 0 <= p < |img.pixels|
      ensures twice.pixels[p] == img.pixels[p]
    {
      assert twice.pixels[p] == InvertPixel(InvertPixel(img.pixels[p]));
    }
    assert twice.pixels == img.pixels;
  }

  /** `occursAt`: `needle` appears in `haystack` starting at position `j`. */
  predicate OccursAt(haystack: string, needle: string, j: int) {
    0 <= j && j + |needle| <= |haystack| && haystack[j..j + |needle|] == needle
  }

  /** `String.prototype.indexOf`: the first position at which `needle` occurs,
      or -1. */
  function IndexOf(haystack: string, needle: string): (r: int)
    ensures r == -1 || OccursAt(haystack, needle, r)
    ensures r == -1 ==> forall j :: 0 <= j <= |haystack| ==> !OccursAt(haystack, needle, j)
    ensures r >= 0 ==> forall j :: 0 <= j < r ==> !OccursAt(haystack, needle, j)
  {
    IndexFrom(haystack, needle, 0)
  }

  function IndexFrom(haystack: string, needle: string, j: nat): (r: int)
    requires j <= |haystack| + 1
    ensures r == -1 || (j <= r && OccursAt(haystack, needle, r))
    ensures r == -1 ==> forall k :: j <= k <= |haystack| ==> !OccursAt(haystack, needle, k)
    ensures r >= 0 ==> forall k :: j <= k < r ==> !OccursAt(haystack, needle, k)
    decreases |haystack| + 1 - j
  {
    if j + |needle| > |haystack| then -1
    else if haystack[j..j + |needle|] == needle then j
    else IndexFrom(haystack, needle, j + 1)
  }

  /** `"rgba".indexOf(name)`: the channel offset a channel name selects. */
  function ChannelIndex(name: string): (r: int)
    ensures -1 <= r < 4
  {
    IndexOf("rgba", name)
  }

  /** The four declared channel names select channels 0 to 3. */
  lemma ChannelNames()
    ensures ChannelIndex("r") == Red
    ensures ChannelIndex("g") == Green
    ensures ChannelIndex("b") == Blue
    ensures ChannelIndex("a") == Alpha
  {
    assert OccursAt("rgba", "r", 0);
    assert OccursAt("rgba", "g", 1);
    assert !OccursAt("rgba", "g", 0);
    assert OccursAt("rgba", "b", 2);
    assert !OccursAt("rgba", "b", 0) && !OccursAt("rgba", "b", 1);
    assert OccursAt("rgba", "a", 3);
    assert !OccursAt("rgba", "a", 0) && !OccursAt("rgba", "a", 1) && !OccursAt("rgba", "a", 2);
  }

  const SizeMismatch := "Source and target must have the same size"
  const InvalidChannel := "Invalid channel"

  /** `writeImageDataChannel`: copies channel `sourceChannel` of every source
      pixel into channel `targetChannel` of the same target pixel and returns
      the target. The size check comes before the channel-name check. */
  function WriteImageDataChannel(source: ImageData, sourceChannel: string, target: ImageData, targetChannel: string): (r: Result<ImageData>)
    ensures !SameSize(source, target) ==> r == Err(SizeMismatch)
    ensures SameSize(source, target) && (ChannelIndex(sourceChannel) == -1 || ChannelIndex(targetChannel) == -1) ==>
              r == Err(InvalidChannel)
    ensures r.Ok? <==> SameSize(source, target) && ChannelIndex(sourceChannel) >= 0 && ChannelIndex(targetChannel) >= 0
    ensures r.Ok? ==> SameSize(r.value, target)
    ensures r.Ok? ==> forall p: nat :: p < PixelCount(target) ==>
              Sample(r.value, p, ChannelIndex(targetChannel)) == Sample(source, p, ChannelIndex(sourceChannel))
    ensures r.Ok? ==> forall p: nat, c: nat :: p < PixelCount(target) && c < 4 && c != ChannelIndex(targetChannel) ==>
              Sample(r.value, p, c) == Sample(target, p, c)
  {
    if !SameSize(source, target) then Err(SizeMismatch)
    else
      var sc, tc := ChannelIndex(sourceChannel), ChannelIndex(targetChannel);
      if sc == -1 || tc == -1 then Err(InvalidChannel)
      else
        Ok(Image(target.width, target.height,
          seq(|target.pixels|, p requires 0 <= p < |target.pixels| =>
            target.pixels[p][tc := source.pixels[p][sc]])))
  }

  /** Copying a channel onto itself leaves the buffer unchanged. */
  lemma WriteChannelOntoItself(img: ImageData, name: string)
    requires ChannelIndex(name) >= 0
    ensures WriteImageDataChannel(img, name, img, name) == Ok(img)
  {
    var r := WriteImageDataChannel(img, name, img, name);
    var c := ChannelIndex(name);
    forall p | 0 <= p < |img.pixels|
      ensures r.value.pixels[p] == img.pixels[p]
    {
      assert r.value.pixels[p] == img.pixels[p][c := img.pixels[p][c]];
    }
    assert r.value.pixels == img.pixels;
  }

  const BlendSizeMismatch := "Back and front images must have the same dimensions"

  /** The size check `alphaBlend` makes before compositing: every front buffer
      must have the back buffer's width and height. */
  function AlphaBlendSizeCheck(back: Image, fronts: seq<Image>): (r: Outcome)
    ensures r.Pass? <==> forall k :: 0 <= k < |fronts| ==> SameSize(back, fronts[k])
    ensures r.Fail? ==> r.message == BlendSizeMismatch
  {
    if |fronts| == 0 then Pass
    else if !SameSize(back, fronts[0]) then Fail(BlendSizeMismatch)
    else
      var rest := AlphaBlendSizeCheck(back, fronts[1..]);
      assert forall k :: 1 <= k < |fronts| ==> fronts[k] == fronts[1..][k - 1];
      rest
  }
}

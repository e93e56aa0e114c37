/** The two non-GPU helpers of `renderer/common.ts`: the zoom scale that
    fits an image into the camera view, and the frame-time counter. Numbers
    are modelled as exact reals. */
module RendererCommon {
  import opened Wrappers

  /** The default `boundary` argument of `calculateZoomScale`. */
  const DefaultBoundary: real := 0.8

  /** `cameraRatio / imageRatio`: how much wider the camera view is than the
      image, relative to their heights. */
  function RelativeRatio(cameraWidth: real, cameraHeight: real, imageWidth: real, imageHeight: real): (ratio: real)
    requires cameraWidth > 0.0 && cameraHeight > 0.0 && imageWidth > 0.0 && imageHeight > 0.0
    ensures ratio > 0.0
  {
    (cameraWidth / cameraHeight) / (imageWidth / imageHeight)
  }

  /** `calculateZoomScale`: the horizontal and vertical scale. The longer
      side, relative to the camera, is scaled to `boundary`, and the two
      scales stand in the relative ratio of the two aspect ratios. */
  function CalculateZoomScale(cameraWidth: real, cameraHeight: real, imageWidth: real, imageHeight: real,
                              boundary: real): (r: (real, real))
    requires cameraWidth > 0.0 && cameraHeight > 0.0 && imageWidth > 0.0 && imageHeight > 0.0
    ensures var ratio := RelativeRatio(cameraWidth, cameraHeight, imageWidth, imageHeight);
            && (ratio > 1.0 ==> r.0 == boundary)
            && (ratio <= 1.0 ==> r.1 == boundary)
            && r.0 == r.1 * ratio
    ensures boundary > 0.0 ==> 0.0 < r.0 <= boundary && 0.0 < r.1 <= boundary
  {
    ZoomForRatio(RelativeRatio(cameraWidth, cameraHeight, imageWidth, imageHeight), boundary)
  }

  /** The scale pair for a given relative ratio: the unit side is the one
      that fills the view, the other is shrunk by the ratio. */
  function ZoomForRatio(ratio: real, boundary: real): (r: (real, real))
    requires ratio > 0.0
    ensures ratio > 1.0 ==> r.0 == boundary
    ensures ratio <= 1.0 ==> r.1 == boundary
    ensures r.0 == r.1 * ratio
    ensures boundary > 0.0 ==> 0.0 < r.0 <= boundary && 0.0 < r.1 <= boundary
  {
    if ratio > 1.0 then
      var width := 1.0;
      var height := width / ratio;
      ShrinkByRatio(boundary, ratio);
      (width * boundary, height * boundary)
    else
      var height := 1.0;
      var width := height * ratio;
      GrowByRatio(boundary, ratio);
      (width * boundary, height * boundary)
  }

  /** Dividing by a ratio above one keeps the result below the boundary. */
  lemma ShrinkByRatio(boundary: real, ratio: real)
    requires ratio > 1.0
    ensures (1.0 / ratio * boundary) * ratio == boundary
    ensures boundary > 0.0 ==> 0.0 < 1.0 / ratio * boundary <= boundary
  {
    var inv := 1.0 / ratio;
    assert inv * ratio == 1.0;
    assert 0.0 < inv < 1.0;
    if boundary > 0.0 {
      assert inv * boundary < 1.0 * boundary;
    }
  }

  /** Multiplying by a ratio of at most one keeps the result below the boundary. */
  lemma GrowByRatio(boundary: real, ratio: real)
    requires 0.0 < ratio <= 1.0
    ensures boundary > 0.0 ==> 0.0 < ratio * boundary <= boundary
  {
    if boundary > 0.0 {
      assert ratio * boundary <= 1.0 * boundary;
    }
  }

  /** The zoom scale depends on the two sizes only through their aspect
      ratios: scaling the camera size, or the image size, changes nothing. */
  lemma ZoomScaleInvariant(cameraWidth: real, cameraHeight: real, imageWidth: real, imageHeight: real,
                           boundary: real, k: real, l: real)
    requires cameraWidth > 0.0 && cameraHeight > 0.0 && imageWidth > 0.0 && imageHeight > 0.0
    requires k > 0.0 && l > 0.0
    ensures CalculateZoomScale(k * cameraWidth, k * cameraHeight, l * imageWidth, l * imageHeight, boundary)
         == CalculateZoomScale(cameraWidth, cameraHeight, imageWidth, imageHeight, boundary)
  {
    SameAspect(cameraWidth, cameraHeight, k);
    SameAspect(imageWidth, imageHeight, l);
    assert RelativeRatio(k * cameraWidth, k * cameraHeight, l * imageWidth, l * imageHeight)
        == RelativeRatio(cameraWidth, cameraHeight, imageWidth, imageHeight);
  }

  lemma SameAspect(w: real, h: real, k: real)
    requires h > 0.0 && k > 0.0
    ensures (k * w) / (k * h) == w / h
  {
    assert (k * w) / (k * h) * (k * h) == k * w;
  }

  /** With the default boundary the image never fills more than 80 percent
      of the view along either axis, and fills exactly 80 percent along one. */
  lemma DefaultBoundaryFits(cameraWidth: real, cameraHeight: real, imageWidth: real, imageHeight: real)
    requires cameraWidth > 0.0 && cameraHeight > 0.0 && imageWidth > 0.0 && imageHeight > 0.0
    ensures var r := CalculateZoomScale(cameraWidth, cameraHeight, imageWidth, imageHeight, DefaultBoundary);
            r.0 <= DefaultBoundary && r.1 <= DefaultBoundary && (r.0 == DefaultBoundary || r.1 == DefaultBoundary)
  {
  }

  // ---------------------------------------------------------------- frame counter

  /** The two counters `createFrameTimeCounter` closes over. */
  datatype FrameCounter = FrameCounter(totalTime: real, totalRenders: nat)

  function CreateFrameTimeCounter(): FrameCounter {
    FrameCounter(0.0, 0)
  }

  /** `render(time)`: one more frame that took `time`. */
  function Render(c: FrameCounter, time: real): (r: FrameCounter)
    ensures r.totalRenders == c.totalRenders + 1
    ensures r.totalTime - c.totalTime == time
  {
    FrameCounter(c.totalTime + time, c.totalRenders + 1)
  }

  /** `reset()`: both counters back to zero. */
  function Reset(c: FrameCounter): (r: FrameCounter)
    ensures r == CreateFrameTimeCounter()
  {
    FrameCounter(0.0, 0)
  }

  /** The `averageTime` getter. With no frame it computes `0 / 0`, which is
      `NaN`, modelled as `None`. */
  function AverageTime(c: FrameCounter): (r: Option<real>)
    ensures r.Some? <==> c.totalRenders > 0
    ensures r.Some? ==> r.value * c.totalRenders as real == c.totalTime
  {
    if c.totalRenders == 0 then None else Some(c.totalTime / c.totalRenders as real)
  }

  /** A call on the counter object. */
  datatype CounterCall = RenderCall(time: real) | ResetCall

  /** The counter after a sequence of calls on a fresh counter. */
  function Run(calls: seq<CounterCall>): FrameCounter {
    if |calls| == 0 then CreateFrameTimeCounter()
    else
      var c := Run(calls[..|calls| - 1]);
      match calls[|calls| - 1]
      case RenderCall(t) => Render(c, t)
      case ResetCall => Reset(c)
  }

  /** The frame times rendered since the last reset. */
  function TimesSinceReset(calls: seq<CounterCall>): seq<real> {
    if |calls| == 0 then []
    else
      match calls[|calls| - 1]
      case RenderCall(t) => TimesSinceReset(calls[..|calls| - 1]) + [t]
      case ResetCall => []
  }

  function Total(times: seq<real>): real {
    if |times| == 0 then 0.0 else Total(times[..|times| - 1]) + times[|times| - 1]
  }

  /** After any sequence of calls the counter holds the number and the total
      of the frames rendered since the last reset, and the average is their
      mean, undefined when there are none. */
  lemma {:induction false} RunCounts(calls: seq<CounterCall>)
    ensures var times := TimesSinceReset(calls);
            Run(calls) == FrameCounter(Total(times), |times|)
    ensures var times := TimesSinceReset(calls);
            |times| > 0 ==> AverageTime(Run(calls)) == Some(Total(times) / |times| as real)
    ensures Run(calls).totalRenders == 0 ==> Run(calls).totalTime == 0.0 && AverageTime(Run(calls)).None?
  {
    if |calls| > 0 {
      var init := calls[..|calls| - 1];
      RunCounts(init);
      match calls[|calls| - 1]
      case RenderCall(t) =>
        var times := TimesSinceReset(init) + [t];
        assert times[..|times| - 1] == TimesSinceReset(init);
      case ResetCall =>
    }
  }
}

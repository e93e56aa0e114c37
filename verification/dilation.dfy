/** `dilateImageData` of `image/utils.ts`: a separable morphological filter.
    A horizontal pass folds `filter` over each pixel's row neighbours within
    `radius`; a vertical pass folds it over the column neighbours of the
    horizontal result. Neighbours outside the buffer are skipped, and the four
    channels (alpha included) are filtered independently. */
module Dilation {
  import opened ImageUtils
  import JsNumber
  import opened Arith

  /** The two exported combiners, `maxFilter` and `minFilter`. */
  datatype Filter = MaxFilter | MinFilter

  /** `maxFilter = (a, b) => a > b ? a : b`, `minFilter = (a, b) => a < b ? a : b`. */
  function Apply(f: Filter, a: Byte, b: Byte): Byte {
    match f
    case MaxFilter => if a > b then a else b
    case MinFilter => if a < b then a else b
  }

  /** `a` is at least as extreme as `b` in the filter's direction. */
  predicate Dominates(f: Filter, a: Byte, b: Byte) {
    match f
    case MaxFilter => a >= b
    case MinFilter => a <= b
  }

  /** The combiner keeps the more extreme of its arguments and returns one of them. */
  lemma ApplyIsExtreme(f: Filter, a: Byte, b: Byte)
    ensures Dominates(f, Apply(f, a, b), a) && Dominates(f, Apply(f, a, b), b)
    ensures Apply(f, a, b) == a || Apply(f, a, b) == b
    ensures Apply(f, a, a) == a
  {
  }

  // ---------------------------------------------------------------- geometry

  /** Pixel `(x, y)` is stored at position `y * width + x`, inside the buffer. */
  lemma PixelIndexInRange(w: nat, h: nat, x: nat, y: nat)
    requires x < w && y < h
    ensures y * w + x < w * h
  {
    MulMonotone(y + 1, h, w);
    assert (y + 1) * w == y * w + w;
  }

  /** Position `p` holds the pixel at column `p % w`, row `p / w`. */
  lemma Coordinates(w: nat, h: nat, p: nat)
    requires p < w * h
    ensures 0 < w && p % w < w && p / w < h && (p / w) * w + p % w == p
  {
  }

  /** The converse of `Coordinates`: `(x, y)` is recovered from its position. */
  lemma CoordinatesOf(w: nat, h: nat, x: nat, y: nat)
    requires x < w && y < h
    ensures y * w + x < w * h && (y * w + x) % w == x && (y * w + x) / w == y
  {
    PixelIndexInRange(w, h, x, y);
    var p := y * w + x;
    Coordinates(w, h, p);
    var q := p / w;
    if q < y {
      MulStep(q, y, w);
    } else if q > y {
      MulStep(y, q, w);
    }
  }

  /** Channel `c` of the pixel at column `x`, row `y`. */
  function At(img: ImageData, x: nat, y: nat, c: nat): Byte
    requires x < img.width && y < img.height && c < 4
  {
    PixelIndexInRange(img.width, img.height, x, y);
    img.pixels[y * img.width + x][c]
  }

  function Row(img: ImageData, y: nat, c: nat): (line: seq<Byte>)
    requires y < img.height && c < 4
    ensures |line| == img.width
  {
    seq(img.width, x requires 0 <= x < img.width => At(img, x, y, c))
  }

  function Column(img: ImageData, x: nat, c: nat): (line: seq<Byte>)
    requires x < img.width && c < 4
    ensures |line| == img.height
  {
    seq(img.height, y requires 0 <= y < img.height => At(img, x, y, c))
  }

  // ---------------------------------------------------------------- the fold

  /** `for (n = lo; n <= hi; n++) if (0 <= n < line.length) acc = filter(acc, line[n])`. */
  function LineFold(line: seq<Byte>, f: Filter, acc: Byte, lo: int, hi: int): Byte
    decreases hi - lo
  {
    if lo > hi then acc
    else LineFold(line, f, if 0 <= lo < |line| then Apply(f, acc, line[lo]) else acc, lo + 1, hi)
  }

  predicate InLine(line: seq<Byte>, lo: int, hi: int, n: int) {
    lo <= n <= hi && 0 <= n < |line|
  }

  lemma DominatesTransitive(f: Filter, a: Byte, b: Byte, c: Byte)
    requires Dominates(f, a, b) && Dominates(f, b, c)
    ensures Dominates(f, a, c)
  {
  }

  /** The fold is at least as extreme as its start value and as every in-range
      sample of the window, and equals one of them. */
  lemma {:induction false} LineFoldExtreme(line: seq<Byte>, f: Filter, acc: Byte, lo: int, hi: int)
    ensures Dominates(f, LineFold(line, f, acc, lo, hi), acc)
    ensures forall n :: InLine(line, lo, hi, n) ==> Dominates(f, LineFold(line, f, acc, lo, hi), line[n])
    ensures LineFold(line, f, acc, lo, hi) == acc
            || exists n :: InLine(line, lo, hi, n) && LineFold(line, f, acc, lo, hi) == line[n]
    decreases hi - lo
  {
    if lo <= hi {
      var acc' := if 0 <= lo < |line| then Apply(f, acc, line[lo]) else acc;
      var res := LineFold(line, f, acc, lo, hi);
      LineFoldExtreme(line, f, acc', lo + 1, hi);
      ApplyIsExtreme(f, acc, if 0 <= lo < |line| then line[lo] else acc);
      DominatesTransitive(f, res, acc', acc);
      forall n | InLine(line, lo, hi, n)
        ensures Dominates(f, res, line[n])
      {
        if n == lo {
          DominatesTransitive(f, res, acc', line[n]);
        }
      }
      if res != acc' {
        var n :| InLine(line, lo + 1, hi, n) && res == line[n];
        assert InLine(line, lo, hi, n);
      } else if acc' != acc {
        assert InLine(line, lo, hi, lo) && res == line[lo];
      }
    }
  }

  /** A fold over a window holding only its start value returns that value. */
  lemma LineFoldSingle(line: seq<Byte>, f: Filter, n: nat)
    requires n < |line|
    ensures LineFold(line, f, line[n], n, n) == line[n]
  {
    ApplyIsExtreme(f, line[n], line[n]);
  }

  // ---------------------------------------------------------------- the passes

  function HorizontalPixel(img: ImageData, r: int, f: Filter, p: nat): Pixel
    requires p < PixelCount(img)
  {
    Coordinates(img.width, img.height, p);
    var x, y := p % img.width, p / img.width;
    seq(4, c requires 0 <= c < 4 => LineFold(Row(img, y, c), f, At(img, x, y, c), x - r, x + r))
  }

  function VerticalPixel(img: ImageData, r: int, f: Filter, p: nat): Pixel
    requires p < PixelCount(img)
  {
    Coordinates(img.width, img.height, p);
    var x, y := p % img.width, p / img.width;
    seq(4, c requires 0 <= c < 4 => LineFold(Column(img, x, c), f, At(img, x, y, c), y - r, y + r))
  }

  /** First pass: every sample folded with its row neighbours. */
  function HorizontalPass(img: ImageData, r: int, f: Filter): (out: ImageData)
    ensures SameSize(out, img)
  {
    Image(img.width, img.height,
      seq(PixelCount(img), p requires 0 <= p < PixelCount(img) => HorizontalPixel(img, r, f, p)))
  }

  /** Second pass: every sample folded with its column neighbours. */
  function VerticalPass(img: ImageData, r: int, f: Filter): (out: ImageData)
    ensures SameSize(out, img)
  {
    Image(img.width, img.height,
      seq(PixelCount(img), p requires 0 <= p < PixelCount(img) => VerticalPixel(img, r, f, p)))
  }

  /** The dilation with an already rounded radius. */
  function Dilate(img: ImageData, r: int, f: Filter): (out: ImageData)
    ensures SameSize(out, img)
  {
    VerticalPass(HorizontalPass(img, r, f), r, f)
  }

  lemma HorizontalAt(img: ImageData, r: int, f: Filter, x: nat, y: nat, c: nat)
    requires x < img.width && y < img.height && c < 4
    ensures At(HorizontalPass(img, r, f), x, y, c) == LineFold(Row(img, y, c), f, At(img, x, y, c), x - r, x + r)
  {
    CoordinatesOf(img.width, img.height, x, y);
  }

  lemma VerticalAt(img: ImageData, r: int, f: Filter, x: nat, y: nat, c: nat)
    requires x < img.width && y < img.height && c < 4
    ensures At(VerticalPass(img, r, f), x, y, c) == LineFold(Column(img, x, c), f, At(img, x, y, c), y - r, y + r)
  {
    CoordinatesOf(img.width, img.height, x, y);
  }

  // ---------------------------------------------------------------- properties

  /** Pixel `(nx, ny)` lies in the edge-clamped `(2r+1) x (2r+1)` window of `(x, y)`. */
  predicate InWindow(img: Image, r: int, x: int, y: int, nx: int, ny: int) {
    x - r <= nx <= x + r && y - r <= ny <= y + r && 0 <= nx < img.width && 0 <= ny < img.height
  }

  /** Each output sample is the maximum (or minimum) of the same channel over
      the window around its pixel: it dominates every window sample and is one
      of them. Channels never mix. */
  lemma DilateWindow(img: ImageData, r: int, f: Filter, x: nat, y: nat, c: nat)
    requires 0 <= r && x < img.width && y < img.height && c < 4
    ensures forall nx: nat, ny: nat :: InWindow(img, r, x, y, nx, ny) ==>
              Dominates(f, At(Dilate(img, r, f), x, y, c), At(img, nx, ny, c))
    ensures exists nx: nat, ny: nat :: InWindow(img, r, x, y, nx, ny) &&
              At(Dilate(img, r, f), x, y, c) == At(img, nx, ny, c)
  {
    WindowDominated(img, r, f, x, y, c);
    WindowAttained(img, r, f, x, y, c);
  }

  /** The output sample dominates every sample of its window. */
  lemma WindowDominated(img: ImageData, r: int, f: Filter, x: nat, y: nat, c: nat)
    requires 0 <= r && x < img.width && y < img.height && c < 4
    ensures forall nx: nat, ny: nat :: InWindow(img, r, x, y, nx, ny) ==>
              Dominates(f, At(Dilate(img, r, f), x, y, c), At(img, nx, ny, c))
  {
    var tmp := HorizontalPass(img, r, f);
    var out := Dilate(img, r, f);
    var col := Column(tmp, x, c);
    VerticalAt(tmp, r, f, x, y, c);
    LineFoldExtreme(col, f, At(tmp, x, y, c), y - r, y + r);
    forall nx: nat, ny: nat | InWindow(img, r, x, y, nx, ny)
      ensures Dominates(f, At(out, x, y, c), At(img, nx, ny, c))
    {
      HorizontalAt(img, r, f, x, ny, c);
      LineFoldExtreme(Row(img, ny, c), f, At(img, x, ny, c), x - r, x + r);
      assert InLine(col, y - r, y + r, ny);
      assert InLine(Row(img, ny, c), x - r, x + r, nx);
      DominatesTransitive(f, At(out, x, y, c), At(tmp, x, ny, c), At(img, nx, ny, c));
    }
  }

  /** The output sample is one of the samples of its window: the vertical
      fold returns the horizontal result of some row `ny` of the window,
      which in turn is some sample `nx` of that row's window. */
  lemma WindowAttained(img: ImageData, r: int, f: Filter, x: nat, y: nat, c: nat)
    requires 0 <= r && x < img.width && y < img.height && c < 4
    ensures exists nx: nat, ny: nat :: InWindow(img, r, x, y, nx, ny) &&
              At(Dilate(img, r, f), x, y, c) == At(img, nx, ny, c)
  {
    var tmp := HorizontalPass(img, r, f);
    var out := Dilate(img, r, f);
    var col := Column(tmp, x, c);
    VerticalAt(tmp, r, f, x, y, c);
    LineFoldExtreme(col, f, At(tmp, x, y, c), y - r, y + r);
    var ny: nat := y;
    if At(out, x, y, c) != At(tmp, x, y, c) {
      var n :| InLine(col, y - r, y + r, n) && At(out, x, y, c) == col[n];
      ny := n;
    }
    assert At(out, x, y, c) == At(tmp, x, ny, c);
    HorizontalAt(img, r, f, x, ny, c);
    var row := Row(img, ny, c);
    LineFoldExtreme(row, f, At(img, x, ny, c), x - r, x + r);
    var nx: nat := x;
    if At(tmp, x, ny, c) != At(img, x, ny, c) {
      var n :| InLine(row, x - r, x + r, n) && At(tmp, x, ny, c) == row[n];
      nx := n;
    }
    assert InWindow(img, r, x, y, nx, ny) && At(out, x, y, c) == At(img, nx, ny, c);
  }

  /** With `maxFilter` no sample decreases; with `minFilter` none increases. */
  lemma DilateExtensive(img: ImageData, r: int, f: Filter, x: nat, y: nat, c: nat)
    requires 0 <= r && x < img.width && y < img.height && c < 4
    ensures f == MaxFilter ==> At(Dilate(img, r, f), x, y, c) >= At(img, x, y, c)
    ensures f == MinFilter ==> At(Dilate(img, r, f), x, y, c) <= At(img, x, y, c)
  {
    DilateWindow(img, r, f, x, y, c);
    assert InWindow(img, r, x, y, x, y);
  }

  /** Pixel access through `At` determines a buffer of a given size. */
  lemma ExtensionalAt(a: ImageData, b: ImageData)
    requires SameSize(a, b)
    requires forall x: nat, y: nat, c: nat :: x < a.width && y < a.height && c < 4 ==> At(a, x, y, c) == At(b, x, y, c)
    ensures a == b
  {
    forall p | 0 <= p < |a.pixels|
      ensures a.pixels[p] == b.pixels[p]
    {
      Coordinates(a.width, a.height, p);
      var x, y := p % a.width, p / a.width;
      forall c | 0 <= c < 4
        ensures a.pixels[p][c] == b.pixels[p][c]
      {
        assert At(a, x, y, c) == At(b, x, y, c);
      }
    }
  }

  /** A radius that rounds to zero or below leaves every sample unchanged: the
      window is the pixel itself, and both combiners return `a` for `(a, a)`. */
  lemma DilateIdentity(img: ImageData, r: int, f: Filter)
    requires r <= 0
    ensures Dilate(img, r, f) == img
  {
    var tmp := HorizontalPass(img, r, f);
    forall x: nat, y: nat, c: nat | x < img.width && y < img.height && c < 4
      ensures At(tmp, x, y, c) == At(img, x, y, c)
    {
      HorizontalAt(img, r, f, x, y, c);
      if r == 0 {
        LineFoldSingle(Row(img, y, c), f, x);
      }
    }
    ExtensionalAt(tmp, img);
    forall x: nat, y: nat, c: nat | x < img.width && y < img.height && c < 4
      ensures At(Dilate(img, r, f), x, y, c) == At(img, x, y, c)
    {
      VerticalAt(img, r, f, x, y, c);
      if r == 0 {
        LineFoldSingle(Column(img, x, c), f, y);
      }
    }
    ExtensionalAt(Dilate(img, r, f), img);
  }

  // ---------------------------------------------------------------- the loops

  datatype Axis = Horizontal | Vertical

  function PassPixel(img: ImageData, r: int, f: Filter, axis: Axis, p: nat): Pixel
    requires p < PixelCount(img)
  {
    match axis
    case Horizontal => HorizontalPixel(img, r, f, p)
    case Vertical => VerticalPixel(img, r, f, p)
  }

  /** The samples of channel `c` along `axis` through pixel `(x, y)`, and the
      position of that pixel on the line. */
  function AxisLine(img: ImageData, axis: Axis, x: nat, y: nat, c: nat): seq<Byte>
    requires x < img.width && y < img.height && c < 4
  {
    match axis
    case Horizontal => Row(img, y, c)
    case Vertical => Column(img, x, c)
  }

  function AxisPos(axis: Axis, x: nat, y: nat): nat {
    match axis
    case Horizontal => x
    case Vertical => y
  }

  /** The innermost loop: `result` starts at the sample itself and absorbs each
      in-range neighbour at offsets `-r..r` along `axis`. */
  method FoldSample(img: ImageData, r: int, f: Filter, axis: Axis, x: nat, y: nat, c: nat) returns (result: Byte)
    requires x < img.width && y < img.height && c < 4
    ensures result == LineFold(AxisLine(img, axis, x, y, c), f, At(img, x, y, c), AxisPos(axis, x, y) - r, AxisPos(axis, x, y) + r)
  {
    ghost var line := AxisLine(img, axis, x, y, c);
    var pos := AxisPos(axis, x, y);
    result := At(img, x, y, c);
    var d := -r;
    while d <= r
      invariant LineFold(line, f, result, pos + d, pos + r) == LineFold(line, f, At(img, x, y, c), pos - r, pos + r)
      decreases r - d
    {
      var n := pos + d;
      if axis == Horizontal {
        if 0 <= n < img.width {
          result := Apply(f, result, At(img, n, y, c));
        }
      } else {
        if 0 <= n < img.height {
          result := Apply(f, result, At(img, x, n, c));
        }
      }
      d := d + 1;
    }
  }

  /** One pass of `dilateImageData` over every pixel and channel. */
  method RunPass(img: ImageData, r: int, f: Filter, axis: Axis) returns (out: ImageData)
    ensures out == (match axis
                    case Horizontal => HorizontalPass(img, r, f)
                    case Vertical => VerticalPass(img, r, f))
  {
    var pixels: seq<Pixel> := [];
    var p := 0;
    while p < PixelCount(img)
      invariant 0 <= p <= PixelCount(img) && |pixels| == p
      invariant forall q :: 0 <= q < p ==> pixels[q] == PassPixel(img, r, f, axis, q)
    {
      var px := PassSamples(img, r, f, axis, p);
      pixels := pixels + [px];
      p := p + 1;
    }
    out := Image(img.width, img.height, pixels);
  }

  /** The channel loop for the pixel at position `p`. */
  method PassSamples(img: ImageData, r: int, f: Filter, axis: Axis, p: nat) returns (px: Pixel)
    requires p < PixelCount(img)
    ensures px == PassPixel(img, r, f, axis, p)
  {
    Coordinates(img.width, img.height, p);
    var x, y := p % img.width, p / img.width;
    var samples: seq<Byte> := [];
    var c := 0;
    while c < 4
      invariant 0 <= c <= 4 && |samples| == c
      invariant forall k :: 0 <= k < c ==> samples[k] == PassPixel(img, r, f, axis, p)[k]
    {
      var result := FoldSample(img, r, f, axis, x, y, c);
      samples := samples + [result];
      c := c + 1;
    }
    px := samples;
  }

  /** `dilateImageData(imageData, radius, filter)`: the radius is rounded with
      `Math.round`, then the horizontal pass feeds the vertical pass. */
  method DilateImageData(img: ImageData, radius: real, f: Filter) returns (out: ImageData)
    ensures out == Dilate(img, JsNumber.Round(radius), f)
    ensures SameSize(out, img)
    ensures JsNumber.Round(radius) <= 0 ==> out == img
    ensures forall x: nat, y: nat, c: nat :: x < img.width && y < img.height && c < 4 ==>
              Dominates(f, At(out, x, y, c), At(img, x, y, c))
  {
    var r := JsNumber.Round(radius);
    var tmp := RunPass(img, r, f, Horizontal);
    out := RunPass(tmp, r, f, Vertical);
    if r <= 0 {
      DilateIdentity(img, r, f);
    } else {
      forall x: nat, y: nat, c: nat | x < img.width && y < img.height && c < 4
        ensures Dominates(f, At(out, x, y, c), At(img, x, y, c))
      {
        DilateExtensive(img, r, f, x, y, c);
      }
    }
  }
}

/** The input-size rule of the depth model (`models/depth.ts`): the image is
    scaled so that its shorter edge is 518 pixels and its longer edge is the
    nearest multiple of 14 to where proportional scaling would put it. */
module DepthModel {
  import opened JsNumber

  const DesiredSize: nat := 518
  const MultipleOf: nat := 14

  /** `ensureMultipleOf`: `x` rounded to a multiple of `n`, halves upwards. */
  function EnsureMultipleOf(x: real, n: nat): (r: int)
    requires n > 0
    ensures r % n == 0
    ensures r as real - x <= n as real / 2.0 && x - r as real < n as real / 2.0
  {
    var q := Round(x / n as real);
    ScaleRounding(x, n, q);
    MultipleMod(q, n);
    q * n
  }

  lemma MultipleMod(q: int, n: nat)
    requires n > 0
    ensures (q * n) % n == 0
  {
    var r := q * n;
    assert r == (r / n) * n + r % n;
    MultipleGap(q, r / n, n);
    MultipleGap(r / n, q, n);
  }

  /** The rounding bounds of `q = round(x / n)`, multiplied through by `n`. */
  lemma ScaleRounding(x: real, n: nat, q: int)
    requires n > 0
    requires q as real - 0.5 <= x / n as real < q as real + 0.5
    ensures (q * n) as real - x <= n as real / 2.0 && x - (q * n) as real < n as real / 2.0
  {
    var y, nr, qr := x / n as real, n as real, q as real;
    assert x == y * nr;
    IntProduct(q, n);
    MulLe(qr - 0.5, y, nr);
    MulLt(y, qr + 0.5, nr);
    assert (qr - 0.5) * nr == qr * nr - nr / 2.0;
    assert (qr + 0.5) * nr == qr * nr + nr / 2.0;
  }

  lemma IntProduct(a: int, b: int)
    ensures (a * b) as real == a as real * b as real
  {
  }

  lemma MulLe(a: real, b: real, c: real)
    requires a <= b && c > 0.0
    ensures a * c <= b * c
  {
  }

  lemma MulLt(a: real, b: real, c: real)
    requires a < b && c > 0.0
    ensures a * c < b * c
  {
  }

  /** No multiple of `n` is nearer to `x` than `ensureMultipleOf(x, n)`. */
  lemma EnsureMultipleOfIsNearest(x: real, n: nat, m: int)
    requires n > 0
    ensures var r := EnsureMultipleOf(x, n) as real;
            var d := (m * n) as real;
            (if r >= x then r - x else x - r) <= (if d >= x then d - x else x - d)
  {
    var r := EnsureMultipleOf(x, n);
    var q := r / n;
    assert r == q * n;
    MultipleGap(m, q, n);
  }

  /** Two different multiples of `n` are at least `n` apart. */
  lemma MultipleGap(m: int, q: int, n: nat)
    ensures m < q ==> m * n <= q * n - n
    ensures m > q ==> m * n >= q * n + n
  {
    if m < q {
      assert m * n <= (q - 1) * n;
    } else if m > q {
      assert m * n >= (q + 1) * n;
    }
  }

  /** A value at least `k * n` is rounded to a multiple of `n` at least `k * n`. */
  lemma EnsureMultipleOfAtLeast(x: real, n: nat, k: int)
    requires n > 0 && (k * n) as real <= x
    ensures EnsureMultipleOf(x, n) >= k * n
  {
    var q := EnsureMultipleOf(x, n) / n;
    assert EnsureMultipleOf(x, n) == q * n;
    MultipleGap(q, k, n);
  }

  /** The size `resizeImageForDepthModel` scales an image of the given size
      to: a portrait image (`width < height`) becomes 518 wide, any other
      image 518 high, and the other edge keeps the aspect ratio rounded to a
      multiple of 14. */
  function TargetSize(width: nat, height: nat): (r: (int, int))
    requires width > 0 && height > 0
    ensures width < height ==> r.0 == DesiredSize && r.1 % MultipleOf == 0 && r.1 >= DesiredSize
    ensures width >= height ==> r.1 == DesiredSize && r.0 % MultipleOf == 0 && r.0 >= DesiredSize
    ensures width < height ==>
              var exact := DesiredSize as real * height as real / width as real;
              r.1 as real - exact <= 7.0 && exact - r.1 as real < 7.0
    ensures width >= height ==>
              var exact := DesiredSize as real * width as real / height as real;
              r.0 as real - exact <= 7.0 && exact - r.0 as real < 7.0
  {
    var aspectRatio := width as real / height as real;
    if width < height then
      var exact := DesiredSize as real / aspectRatio;
      Portrait(width, height);
      (DesiredSize, LongerEdge(exact))
    else
      var exact := DesiredSize as real * aspectRatio;
      Landscape(width, height);
      (LongerEdge(exact), DesiredSize)
  }

  /** `ensureMultipleOf(exact, 14)` for the longer edge, which proportional
      scaling puts at 518 or more. */
  function LongerEdge(exact: real): (r: int)
    ensures exact >= DesiredSize as real ==> r % MultipleOf == 0 && r >= DesiredSize
    ensures r as real - exact <= 7.0 && exact - r as real < 7.0
  {
    var r := EnsureMultipleOf(exact, MultipleOf);
    if exact >= DesiredSize as real then
      EnsureMultipleOfAtLeast(exact, MultipleOf, 37);
      r
    else r
  }

  /** `518 / (width / height)` is the proportional height, at least 518. */
  lemma Portrait(width: nat, height: nat)
    requires 0 < width < height
    ensures DesiredSize as real / (width as real / height as real) == DesiredSize as real * height as real / width as real
    ensures DesiredSize as real * height as real / width as real >= DesiredSize as real
  {
    var w, h := width as real, height as real;
    var ratio := w / h;
    assert ratio * h == w;
    ExactEdge(height, width);
  }

  /** `518 * (width / height)` is the proportional width, at least 518. */
  lemma Landscape(width: nat, height: nat)
    requires 0 < height <= width
    ensures DesiredSize as real * (width as real / height as real) == DesiredSize as real * width as real / height as real
    ensures DesiredSize as real * width as real / height as real >= DesiredSize as real
  {
    ExactEdge(width, height);
  }

  /** Scaling the shorter edge up to 518 takes the longer one to at least 518. */
  lemma ExactEdge(longer: nat, shorter: nat)
    requires 0 < shorter <= longer
    ensures DesiredSize as real * longer as real / shorter as real >= DesiredSize as real
  {
    var ratio := longer as real / shorter as real;
    assert ratio >= 1.0;
    assert DesiredSize as real * longer as real / shorter as real == DesiredSize as real * ratio;
  }

  /** A square image becomes 518 by 518, since 518 is 37 times 14. */
  lemma SquareTarget(side: nat)
    requires side > 0
    ensures TargetSize(side, side) == (DesiredSize, DesiredSize)
  {
    var s := side as real;
    assert s / s == 1.0;
    assert 518.0 * s / s == 518.0;
    EnsureMultipleOfIsNearest(518.0, MultipleOf, 37);
    var r := EnsureMultipleOf(518.0, MultipleOf);
    assert r == 518 by {
      var q := r / MultipleOf;
      assert r == q * MultipleOf;
      MultipleGap(q, 37, MultipleOf);
    }
  }
}

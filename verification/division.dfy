/** `multilayer/division.ts`: the depth histogram and the choice of division
    points that cut the depth range 0..255 into layers. */
module Division {
  import opened ImageUtils
  import opened Arith
  import Sorting

  /** A 256-bucket histogram of depth values. */
  type Histogram = h: seq<nat> | |h| == 256 witness seq(256, _ => 0)

  function Sum(s: seq<nat>): nat {
    if |s| == 0 then 0 else Sum(s[..|s| - 1]) + s[|s| - 1]
  }

  lemma SumStep(s: seq<nat>, i: nat)
    requires i < |s|
    ensures Sum(s[..i + 1]) == Sum(s[..i]) + s[i]
  {
    assert s[..i + 1][..i] == s[..i];
  }

  lemma SumAll(s: seq<nat>)
    ensures Sum(s[..|s|]) == Sum(s)
  {
    assert s[..|s|] == s;
  }

  lemma {:induction false} SumZeros(n: nat)
    ensures Sum(seq(n, _ => 0)) == 0
  {
    if n > 0 {
      assert seq(n, _ => 0)[..n - 1] == seq(n - 1, _ => 0);
      SumZeros(n - 1);
    }
  }

  /** Replacing one element changes the sum by the difference. */
  lemma {:induction false} SumUpdate(s: seq<nat>, k: nat, x: nat)
    requires k < |s|
    ensures Sum(s[k := x]) + s[k] == Sum(s) + x
    decreases |s|
  {
    var t := s[k := x];
    var n := |s| - 1;
    if k == n {
      assert t[..n] == s[..n];
    } else {
      assert t[..n] == s[..n][k := x];
      SumUpdate(s[..n], k, x);
    }
  }

  // ---------------------------------------------------------------- histogram

  /** Number of pixels among the first `n` whose R sample equals `v`. */
  function RedCount(img: ImageData, n: nat, v: int): nat
    requires n <= PixelCount(img)
  {
    if n == 0 then 0 else RedCount(img, n - 1, v) + (if Sample(img, n - 1, Red) == v then 1 else 0)
  }

  /** `depthMapHistogram`: bucket `v` counts the pixels whose R sample is `v`
      (one step of 4 through the flat sample array per pixel); the buckets add
      up to the pixel count `data.length / 4`. */
  method DepthMapHistogram(depthMap: ImageData) returns (histogram: Histogram)
    ensures forall v :: 0 <= v < 256 ==> histogram[v] == RedCount(depthMap, PixelCount(depthMap), v)
    ensures Sum(histogram) == PixelCount(depthMap)
  {
    histogram := seq(256, _ => 0);
    SumZeros(256);
    var p := 0;
    while p < PixelCount(depthMap)
      invariant 0 <= p <= PixelCount(depthMap)
      invariant forall v :: 0 <= v < 256 ==> histogram[v] == RedCount(depthMap, p, v)
      invariant Sum(histogram) == p
    {
      var r := Sample(depthMap, p, Red);
      SumUpdate(histogram, r, histogram[r] + 1);
      histogram := histogram[r := histogram[r] + 1];
      p := p + 1;
    }
  }

  // ---------------------------------------------------------------- percentiles

  /** Pixel mass of buckets `0..i` inclusive. */
  function MassThrough(h: Histogram, i: int): nat
    requires -1 <= i < 256
  {
    Sum(h[..i + 1])
  }

  /** Bucket `i` closes the `(k+1)`-th of `numLayers` equal-mass bands:
      `cumulativePixels >= (totalPixels / numLayers) * (k + 1)`, multiplied out. */
  predicate Reaches(h: Histogram, numLayers: int, i: int, k: nat)
    requires -1 <= i < 256
  {
    MassThrough(h, i) * numLayers >= Sum(h) * (k + 1)
  }

  predicate StrictlyIncreasing(s: seq<int>) {
    forall i, j :: 0 <= i < j < |s| ==> s[i] < s[j]
  }

  predicate InBuckets(s: seq<int>) {
    forall k :: 0 <= k < |s| ==> 0 <= s[k] <= 255
  }

  /** No point is the first or the last bucket. */
  predicate Inner(s: seq<int>) {
    forall k :: 0 <= k < |s| ==> 1 <= s[k] <= 254
  }

  /** The point before position `k`, or -1 before the first. */
  function Prev(s: seq<int>, k: nat): int
    requires k <= |s|
  {
    if k == 0 then -1 else s[k - 1]
  }

  /** The state of the percentile loop after buckets `0..i-1`: every emitted
      point reached its threshold at the first bucket after its predecessor
      that could, and the next threshold has not been reached since. */
  ghost predicate PercentileState(h: Histogram, numLayers: int, i: nat, pts: seq<int>)
    requires i <= 256
  {
    && StrictlyIncreasing(pts)
    && (forall k :: 0 <= k < |pts| ==> 0 <= pts[k] < i)
    && (|pts| == 0 || |pts| <= numLayers - 1)
    && (forall k :: 0 <= k < |pts| ==> Reaches(h, numLayers, pts[k], k))
    && (forall k, j :: 0 <= k < |pts| && Prev(pts, k) < j < pts[k] ==> !Reaches(h, numLayers, j, k))
    && (|pts| < numLayers - 1 ==> forall j :: Prev(pts, |pts|) < j < i ==> !Reaches(h, numLayers, j, |pts|))
  }

  /** One iteration of the percentile loop keeps `PercentileState`. */
  lemma PercentileStep(h: Histogram, numLayers: int, i: nat, pts: seq<int>, pts': seq<int>)
    requires i < 256 && PercentileState(h, numLayers, i, pts)
    requires pts' == if |pts| < numLayers - 1 && Reaches(h, numLayers, i, |pts|) then pts + [i] else pts
    ensures PercentileState(h, numLayers, i + 1, pts')
  {
    if |pts| < numLayers - 1 && Reaches(h, numLayers, i, |pts|) {
      StepEmits(h, numLayers, i, pts);
    } else {
      StepSkips(h, numLayers, i, pts);
    }
  }

  /** Bucket `i` reaches the next threshold: it is emitted. */
  lemma StepEmits(h: Histogram, numLayers: int, i: nat, pts: seq<int>)
    requires i < 256 && PercentileState(h, numLayers, i, pts)
    requires |pts| < numLayers - 1 && Reaches(h, numLayers, i, |pts|)
    ensures PercentileState(h, numLayers, i + 1, pts + [i])
  {
    var pts' := pts + [i];
    AppendKeepsMinimal(h, numLayers, i, pts);
    forall a, b | 0 <= a < b < |pts'|
      ensures pts'[a] < pts'[b]
    {
      if b < |pts| {
        assert pts'[a] == pts[a] && pts'[b] == pts[b];
      } else {
        assert pts'[a] == pts[a] < i;
      }
    }
    forall k | 0 <= k < |pts'|
      ensures 0 <= pts'[k] < i + 1 && Reaches(h, numLayers, pts'[k], k)
    {
      if k < |pts| {
        assert pts'[k] == pts[k];
      }
    }
    assert Prev(pts', |pts'|) == i;
  }

  /** Bucket `i` does not reach the next threshold, or every point is
      already emitted: nothing is emitted. */
  lemma StepSkips(h: Histogram, numLayers: int, i: nat, pts: seq<int>)
    requires i < 256 && PercentileState(h, numLayers, i, pts)
    requires !(|pts| < numLayers - 1 && Reaches(h, numLayers, i, |pts|))
    ensures PercentileState(h, numLayers, i + 1, pts)
  {
    if |pts| < numLayers - 1 {
      forall j | Prev(pts, |pts|) < j < i + 1
        ensures !Reaches(h, numLayers, j, |pts|)
      {
        if j < i {
          assert Prev(pts, |pts|) < j < i;
        }
      }
    }
  }

  lemma AppendKeepsMinimal(h: Histogram, numLayers: int, i: nat, pts: seq<int>)
    requires i < 256 && StrictlyIncreasing(pts)
    requires forall k :: 0 <= k < |pts| ==> 0 <= pts[k] < i
    requires forall k, j :: 0 <= k < |pts| && Prev(pts, k) < j < pts[k] ==> !Reaches(h, numLayers, j, k)
    requires forall j :: Prev(pts, |pts|) < j < i ==> !Reaches(h, numLayers, j, |pts|)
    ensures var pts' := pts + [i];
            forall k, j :: 0 <= k < |pts'| && Prev(pts', k) < j < pts'[k] ==> !Reaches(h, numLayers, j, k)
  {
    var pts' := pts + [i];
    forall k, j | 0 <= k < |pts'| && Prev(pts', k) < j < pts'[k]
      ensures !Reaches(h, numLayers, j, k)
    {
      if k < |pts| {
        assert Prev(pts, k) < j < pts[k];
      } else {
        assert Prev(pts, |pts|) < j < i;
      }
    }
  }

  /** The loop of `percentileBasedDivision` from bucket `i` on. */
  function PercentileScan(h: Histogram, numLayers: int, i: nat, cumulative: nat, pts: seq<int>): (r: seq<int>)
    requires i <= 256 && cumulative == MassThrough(h, i - 1)
    requires PercentileState(h, numLayers, i, pts)
    ensures PercentileState(h, numLayers, 256, r)
    decreases 256 - i
  {
    if i == 256 then pts
    else
      var cumulative' := cumulative + h[i];
      var pts' := if |pts| < numLayers - 1 && cumulative' * numLayers >= Sum(h) * (|pts| + 1) then pts + [i] else pts;
      SumStep(h, i);
      ReachesAt(h, numLayers, i, cumulative', |pts|);
      PercentileStep(h, numLayers, i, pts, pts');
      PercentileScan(h, numLayers, i + 1, cumulative', pts')
  }

  /** The loop's test on the running total is `Reaches` for bucket `i`. */
  lemma ReachesAt(h: Histogram, numLayers: int, i: nat, cumulative: nat, k: nat)
    requires i < 256 && cumulative == MassThrough(h, i)
    ensures Reaches(h, numLayers, i, k) <==> cumulative * numLayers >= Sum(h) * (k + 1)
  {
  }

  /** `percentileBasedDivision(histogram, numLayers)`. */
  function PercentileBasedDivision(h: Histogram, numLayers: int): (r: seq<int>)
    ensures StrictlyIncreasing(r) && InBuckets(r)
    ensures numLayers <= 1 ==> r == []
    ensures numLayers >= 1 ==> |r| <= numLayers - 1
    ensures forall k :: 0 <= k < |r| ==> Reaches(h, numLayers, r[k], k)
    ensures forall k, j :: 0 <= k < |r| && Prev(r, k) < j < r[k] ==> !Reaches(h, numLayers, j, k)
    ensures |r| < numLayers - 1 ==> forall j :: Prev(r, |r|) < j < 256 ==> !Reaches(h, numLayers, j, |r|)
  {
    PercentileScan(h, numLayers, 0, 0, [])
  }

  /** With two or more layers the scan emits every threshold, or stops only
      because it reached the last bucket; in particular it emits a point. */
  lemma PercentileCompletes(h: Histogram, numLayers: int)
    requires numLayers >= 2
    ensures var r := PercentileBasedDivision(h, numLayers);
            |r| >= 1 && (|r| == numLayers - 1 || r[|r| - 1] == 255)
  {
    var r := PercentileBasedDivision(h, numLayers);
    SumAll(h);
    assert MassThrough(h, 255) == Sum(h);
    MulMonotone(|r| + 1, numLayers, Sum(h));
    assert Reaches(h, numLayers, 255, |r|);
  }

  // ---------------------------------------------------------------- valleys

  /** Half-width of the smoothing window. */
  const WindowSize := 8

  /** `Math.max(0, i - windowSize)`. */
  function WindowLeft(i: int): int {
    if i - WindowSize > 0 then i - WindowSize else 0
  }

  /** `Math.min(255, i + windowSize)`. */
  function WindowRight(i: int): int {
    if i + WindowSize < 255 then i + WindowSize else 255
  }

  /** The mean of the buckets in the edge-clamped window around `i`. */
  function WindowAverage(h: Histogram, i: int): real
    requires 0 <= i < 256
  {
    Sum(h[WindowLeft(i)..WindowRight(i) + 1]) as real / (WindowRight(i) - WindowLeft(i) + 1) as real
  }

  /** The smoothed histogram, `noise[i]` standing for the `Math.random()`
      value drawn for bucket `i`. */
  function Smoothed(h: Histogram, noise: seq<real>): (s: seq<real>)
    requires |noise| == 256
    ensures |s| == 256
  {
    seq(256, i requires 0 <= i < 256 => WindowAverage(h, i) + noise[i] / 100.0)
  }

  /** The smoothing loops of `valleyBasedDivision`: bucket `i` becomes the sum
      over its window divided by the number of buckets visited, plus a
      hundredth of its jitter. */
  method SmoothHistogram(h: Histogram, noise: seq<real>) returns (smoothed: seq<real>)
    requires |noise| == 256
    ensures |smoothed| == 256
    ensures forall i :: 0 <= i < 256 ==> smoothed[i] == WindowAverage(h, i) + noise[i] / 100.0
  {
    smoothed := [];
    var i := 0;
    while i < 256
      invariant 0 <= i <= 256 && |smoothed| == i
      invariant forall k :: 0 <= k < i ==> smoothed[k] == WindowAverage(h, k) + noise[k] / 100.0
    {
      var left := if 0 > i - WindowSize then 0 else i - WindowSize;
      var right := if 255 < i + WindowSize then 255 else i + WindowSize;
      var sum, count := WindowSum(h, left, right);
      smoothed := smoothed + [sum / count as real + noise[i] / 100.0];
      i := i + 1;
    }
  }

  /** The inner loop: the sum of buckets `left..right` and how many there are. */
  method WindowSum(h: Histogram, left: nat, right: nat) returns (sum: real, count: nat)
    requires left <= right < 256
    ensures sum == Sum(h[left..right + 1]) as real
    ensures count == right - left + 1
  {
    sum, count := 0.0, 0;
    var j := left;
    while j <= right
      invariant left <= j <= right + 1
      invariant sum == Sum(h[left..j]) as real
      invariant count == j - left
    {
      assert h[left..j + 1][..j - left] == h[left..j];
      sum := sum + h[j] as real;
      count := count + 1;
      j := j + 1;
    }
  }

  function RealSum(s: seq<real>): real {
    if |s| == 0 then 0.0 else RealSum(s[..|s| - 1]) + s[|s| - 1]
  }

  /** `smoothed.reduce((a, b) => a + b, 0) / smoothed.length`. */
  function Mean(s: seq<real>): real
    requires |s| > 0
  {
    RealSum(s) / |s| as real
  }

  /** Bucket `i` is a valley: an inner bucket, below the average times the
      valley threshold (which is 1), and strictly lower than both neighbours. */
  predicate IsValley(s: seq<real>, avg: real, i: int)
    requires |s| == 256
  {
    1 <= i < 255 && s[i] < avg && s[i] < s[i - 1] && s[i] < s[i + 1]
  }

  datatype Valley = Valley(index: int, value: real)

  /** The valley-collecting loop from bucket `i` on. */
  function ValleyScan(s: seq<real>, avg: real, i: nat): (r: seq<Valley>)
    requires |s| == 256 && 1 <= i <= 255
    ensures forall k :: 0 <= k < |r| ==> i <= r[k].index && IsValley(s, avg, r[k].index) && r[k].value == s[r[k].index]
    ensures forall j :: i <= j < 255 && IsValley(s, avg, j) ==> exists k :: 0 <= k < |r| && r[k].index == j
    ensures forall a, b :: 0 <= a < b < |r| ==> r[a].index < r[b].index
    decreases 255 - i
  {
    if i == 255 then []
    else
      var rest := ValleyScan(s, avg, i + 1);
      if IsValley(s, avg, i) then
        var r := [Valley(i, s[i])] + rest;
        ValleyConsFacts(s, avg, i, rest, r);
        r
      else rest
  }

  lemma ValleyConsFacts(s: seq<real>, avg: real, i: nat, rest: seq<Valley>, r: seq<Valley>)
    requires |s| == 256 && 1 <= i < 255 && IsValley(s, avg, i)
    requires forall k :: 0 <= k < |rest| ==> i < rest[k].index && IsValley(s, avg, rest[k].index) && rest[k].value == s[rest[k].index]
    requires forall j :: i < j < 255 && IsValley(s, avg, j) ==> exists k :: 0 <= k < |rest| && rest[k].index == j
    requires forall a, b :: 0 <= a < b < |rest| ==> rest[a].index < rest[b].index
    requires r == [Valley(i, s[i])] + rest
    ensures forall k :: 0 <= k < |r| ==> i <= r[k].index && IsValley(s, avg, r[k].index) && r[k].value == s[r[k].index]
    ensures forall j :: i <= j < 255 && IsValley(s, avg, j) ==> exists k :: 0 <= k < |r| && r[k].index == j
    ensures forall a, b :: 0 <= a < b < |r| ==> r[a].index < r[b].index
  {
    forall j | i <= j < 255 && IsValley(s, avg, j)
      ensures exists k :: 0 <= k < |r| && r[k].index == j
    {
      if j == i {
        assert r[0].index == j;
      } else {
        var k :| 0 <= k < |rest| && rest[k].index == j;
        assert r[k + 1].index == j;
      }
    }
    forall a, b | 0 <= a < b < |r|
      ensures r[a].index < r[b].index
    {
      assert r[b] == rest[b - 1];
      if a > 0 {
        assert r[a] == rest[a - 1];
      }
    }
  }

  function ValueKey(v: Valley): real {
    v.value
  }

  /** The end position `Array.prototype.slice(0, end)` uses on a sequence of
      length `len`: a negative `end` counts from the back. */
  function SliceEnd(len: nat, end: int): (e: nat)
    ensures e <= len
  {
    if end < 0 then (if len + end > 0 then len + end else 0)
    else if end < len then end else len
  }

  function Indices(vs: seq<Valley>): (r: seq<int>)
    ensures |r| == |vs|
  {
    seq(|vs|, k requires 0 <= k < |vs| => vs[k].index)
  }

  /** What the picked valleys satisfy: distinct valleys in ascending order,
      at most `numLayers - 1` of them, all of them when fewer are found, none
      higher than a valley left out, and none only when there is no valley. */
  ghost predicate Picked(s: seq<real>, avg: real, numLayers: int, r: seq<int>)
    requires |s| == 256
  {
    && StrictlyIncreasing(r) && InBuckets(r)
    && (forall k :: 0 <= k < |r| ==> IsValley(s, avg, r[k]))
    && (numLayers >= 1 ==> |r| <= numLayers - 1)
    && (numLayers >= 1 && |r| < numLayers - 1 ==> forall j :: 1 <= j < 255 && IsValley(s, avg, j) ==> j in r)
    && (forall k, j :: 0 <= k < |r| && 1 <= j < 255 && IsValley(s, avg, j) && j !in r ==> s[r[k]] <= s[j])
    && (numLayers >= 2 ==> (r == [] <==> forall j :: 1 <= j < 255 ==> !IsValley(s, avg, j)))
  }

  /** The valleys of `s`, sorted by value, cut to the first `numLayers - 1`,
      reduced to their bucket indices and sorted ascending. */
  function PickValleys(s: seq<real>, avg: real, numLayers: int): (r: seq<int>)
    requires |s| == 256
    ensures Picked(s, avg, numLayers, r)
  {
    var sorted := Sorting.SortBy(ValleyScan(s, avg, 1), ValueKey);
    var m := SliceEnd(|sorted|, numLayers - 1);
    var r := Sorting.SortNumbers(Indices(sorted[..m]));
    PickedProperties(s, avg, numLayers, sorted, m, r);
    r
  }

  lemma PickedProperties(s: seq<real>, avg: real, numLayers: int, sorted: seq<Valley>, m: nat, r: seq<int>)
    requires |s| == 256
    requires multiset(sorted) == multiset(ValleyScan(s, avg, 1))
    requires Sorting.SortedBy(sorted, ValueKey)
    requires m == SliceEnd(|sorted|, numLayers - 1)
    requires multiset(r) == multiset(Indices(sorted[..m]))
    requires forall a, b :: 0 <= a < b < |r| ==> r[a] <= r[b]
    ensures Picked(s, avg, numLayers, r)
  {
    assert |r| == m by {
      assert |multiset(r)| == |multiset(Indices(sorted[..m]))|;
    }
    PickedAreValleys(s, avg, sorted, m, r);
    PickedAreSmallest(s, avg, sorted, m, r);
    PickedAll(s, avg, sorted, m, r);
  }

  /** Each value-sorted valley is a valley recorded with its own value. */
  lemma SortedValleysAreValleys(s: seq<real>, avg: real, sorted: seq<Valley>)
    requires |s| == 256
    requires multiset(sorted) == multiset(ValleyScan(s, avg, 1))
    ensures forall k :: 0 <= k < |sorted| ==> IsValley(s, avg, sorted[k].index) && sorted[k].value == s[sorted[k].index]
  {
    var valleys := ValleyScan(s, avg, 1);
    forall k | 0 <= k < |sorted|
      ensures IsValley(s, avg, sorted[k].index) && sorted[k].value == s[sorted[k].index]
    {
      assert sorted[k] in multiset(valleys);
      var q :| 0 <= q < |valleys| && valleys[q] == sorted[k];
    }
  }

  /** No two value-sorted valleys share a bucket. */
  lemma SortedValleysDistinct(s: seq<real>, avg: real, sorted: seq<Valley>)
    requires |s| == 256
    requires multiset(sorted) == multiset(ValleyScan(s, avg, 1))
    ensures Sorting.Distinct(Indices(sorted))
  {
    var valleys := ValleyScan(s, avg, 1);
    assert Sorting.Distinct(valleys);
    Sorting.DistinctPermutation(sorted, valleys);
    SortedValleysAreValleys(s, avg, sorted);
    var idx := Indices(sorted);
    forall a, b | 0 <= a < b < |idx|
      ensures idx[a] != idx[b]
    {
      assert sorted[a] != sorted[b];
    }
  }

  /** Every valley appears among the value-sorted valleys. */
  lemma SortedValleysComplete(s: seq<real>, avg: real, sorted: seq<Valley>, j: int)
    requires |s| == 256
    requires multiset(sorted) == multiset(ValleyScan(s, avg, 1))
    requires 1 <= j < 255 && IsValley(s, avg, j)
    ensures exists q :: 0 <= q < |sorted| && sorted[q].index == j
  {
    var valleys := ValleyScan(s, avg, 1);
    var k :| 0 <= k < |valleys| && valleys[k].index == j;
    assert valleys[k] in multiset(sorted);
    var q :| 0 <= q < |sorted| && sorted[q] == valleys[k];
  }

  /** The bucket of each of the first `m` sorted valleys is picked. */
  lemma InPicked(sorted: seq<Valley>, m: nat, r: seq<int>, q: nat)
    requires m <= |sorted| && multiset(r) == multiset(Indices(sorted[..m]))
    requires q < |sorted|
    ensures q < m ==> sorted[q].index in r
  {
    if q < m {
      assert Indices(sorted[..m])[q] == sorted[q].index;
      assert sorted[q].index in multiset(r);
    }
  }

  /** Each picked bucket is the bucket of one of the first `m` sorted valleys. */
  lemma PickedFrom(sorted: seq<Valley>, m: nat, r: seq<int>, k: nat)
    requires m <= |sorted| && multiset(r) == multiset(Indices(sorted[..m]))
    requires k < |r|
    ensures exists q :: 0 <= q < m && sorted[q].index == r[k]
  {
    var idx := Indices(sorted[..m]);
    assert r[k] in multiset(idx);
    var q :| 0 <= q < |idx| && idx[q] == r[k];
  }

  /** The picked buckets are distinct valleys, ascending. */
  lemma PickedAreValleys(s: seq<real>, avg: real, sorted: seq<Valley>, m: nat, r: seq<int>)
    requires |s| == 256
    requires multiset(sorted) == multiset(ValleyScan(s, avg, 1))
    requires m <= |sorted| && multiset(r) == multiset(Indices(sorted[..m]))
    requires forall a, b :: 0 <= a < b < |r| ==> r[a] <= r[b]
    ensures StrictlyIncreasing(r) && InBuckets(r)
    ensures forall k :: 0 <= k < |r| ==> IsValley(s, avg, r[k])
  {
    SortedValleysAreValleys(s, avg, sorted);
    SortedValleysDistinct(s, avg, sorted);
    var idx := Indices(sorted[..m]);
    assert idx == Indices(sorted)[..m];
    Sorting.DistinctPermutation(r, idx);
    forall k | 0 <= k < |r|
      ensures IsValley(s, avg, r[k])
    {
      PickedFrom(sorted, m, r, k);
    }
  }

  /** A picked valley is no higher than any valley left out. */
  lemma PickedAreSmallest(s: seq<real>, avg: real, sorted: seq<Valley>, m: nat, r: seq<int>)
    requires |s| == 256
    requires multiset(sorted) == multiset(ValleyScan(s, avg, 1))
    requires Sorting.SortedBy(sorted, ValueKey)
    requires m <= |sorted| && multiset(r) == multiset(Indices(sorted[..m]))
    ensures forall k, j :: 0 <= k < |r| && 1 <= j < 255 && IsValley(s, avg, j) && j !in r ==> 0 <= r[k] < 256 && s[r[k]] <= s[j]
  {
    SortedValleysAreValleys(s, avg, sorted);
    forall k, j | 0 <= k < |r| && 1 <= j < 255 && IsValley(s, avg, j) && j !in r
      ensures 0 <= r[k] < 256 && s[r[k]] <= s[j]
    {
      PickedFrom(sorted, m, r, k);
      var ka :| 0 <= ka < m && sorted[ka].index == r[k];
      SortedValleysComplete(s, avg, sorted, j);
      var q :| 0 <= q < |sorted| && sorted[q].index == j;
      InPicked(sorted, m, r, q);
      assert ValueKey(sorted[ka]) <= ValueKey(sorted[q]);
    }
  }

  /** When nothing is cut away every valley is picked; there is something to
      pick exactly when some bucket is a valley. */
  lemma PickedAll(s: seq<real>, avg: real, sorted: seq<Valley>, m: nat, r: seq<int>)
    requires |s| == 256
    requires multiset(sorted) == multiset(ValleyScan(s, avg, 1))
    requires m <= |sorted| && multiset(r) == multiset(Indices(sorted[..m]))
    ensures m == |sorted| ==> forall j :: 1 <= j < 255 && IsValley(s, avg, j) ==> j in r
    ensures |sorted| == 0 <==> forall j :: 1 <= j < 255 ==> !IsValley(s, avg, j)
  {
    forall j | 1 <= j < 255 && IsValley(s, avg, j)
      ensures |sorted| > 0 && (m == |sorted| ==> j in r)
    {
      SortedValleysComplete(s, avg, sorted, j);
      var q :| 0 <= q < |sorted| && sorted[q].index == j;
      InPicked(sorted, m, r, q);
    }
    SortedValleysAreValleys(s, avg, sorted);
    if |sorted| > 0 {
      assert IsValley(s, avg, sorted[0].index);
    }
  }

  /** Some bucket of the smoothed histogram `s` is a valley. */
  predicate HasValley(s: seq<real>)
    requires |s| == 256
  {
    exists j :: 1 <= j < 255 && IsValley(s, Mean(s), j)
  }

  /** `valleyBasedDivision(histogram, numLayers)`, the `Math.random()` jitter
      drawn as `noise`: the picked valleys of the smoothed histogram, or the
      percentile division when none is picked. */
  function ValleyBasedDivision(h: Histogram, numLayers: int, noise: seq<real>): (r: seq<int>)
    requires |noise| == 256
    ensures StrictlyIncreasing(r) && InBuckets(r)
    ensures numLayers >= 1 ==> |r| <= numLayers - 1
    ensures numLayers >= 2 ==> |r| >= 1
    ensures !HasValley(Smoothed(h, noise)) ==> r == PercentileBasedDivision(h, numLayers)
    ensures var s := Smoothed(h, noise);
            numLayers >= 2 && HasValley(s) ==> forall k :: 0 <= k < |r| ==> IsValley(s, Mean(s), r[k])
    ensures numLayers >= 2 && HasValley(Smoothed(h, noise)) ==> Inner(r)
    ensures var s := Smoothed(h, noise);
            numLayers >= 2 && HasValley(s) ==> r == PickValleys(s, Mean(s), numLayers) && Picked(s, Mean(s), numLayers, r)
  {
    var s := Smoothed(h, noise);
    var picks := PickValleys(s, Mean(s), numLayers);
    if |picks| > 0 then picks
    else if numLayers >= 2 then
      PercentileCompletes(h, numLayers);
      PercentileBasedDivision(h, numLayers)
    else PercentileBasedDivision(h, numLayers)
  }

  // ---------------------------------------------------------------- mass filter

  /** Pixel mass of buckets `lo..hi` inclusive; none when `lo > hi`. */
  function Mass(h: Histogram, lo: int, hi: int): nat
    requires 0 <= lo && hi < 256
  {
    if lo > hi then 0 else Sum(h[lo..hi + 1])
  }

  /** `pixelCount / totalPixels >= 0.10` over the rationals; with no pixels
      at all the ratio is `NaN` and the test fails. */
  predicate HeavyEnough(total: nat, mass: nat) {
    total > 0 && 10 * mass >= total
  }

  /** `[...new Set(points)]`: each value once, in order of first occurrence. */
  function Dedupe(s: seq<int>): (r: seq<int>)
    ensures Sorting.Distinct(r)
    ensures forall x :: x in r <==> x in s
  {
    DedupeInto([], s)
  }

  function DedupeInto(seen: seq<int>, s: seq<int>): (r: seq<int>)
    requires Sorting.Distinct(seen)
    ensures Sorting.Distinct(r)
    ensures forall x :: x in r <==> x in seen || x in s
    ensures |seen| <= |r| && r[..|seen|] == seen
    decreases |s|
  {
    if |s| == 0 then seen
    else
      var r := DedupeInto(if s[0] in seen then seen else seen + [s[0]], s[1..]);
      assert s == [s[0]] + s[1..];
      assert (seen + [s[0]])[..|seen|] == seen;
      r
  }

  /** The last of the strictly increasing points `r` lying below `p`, or
      `dflt` when none does. */
  function LastBelow(r: seq<int>, p: int, dflt: int): (b: int)
    ensures b == dflt || (b in r && b < p)
  {
    if |r| == 0 || r[0] >= p then dflt else LastBelow(r[1..], p, r[0])
  }

  /** The filter loop over the sorted, distinct `pts`, `prev` being the last
      kept point (initially 0). */
  function FilterFrom(h: Histogram, total: nat, pts: seq<int>, prev: int): (r: seq<int>)
    requires StrictlyIncreasing(pts) && InBuckets(pts) && 0 <= prev
    requires forall k :: 0 <= k < |pts| ==> prev <= pts[k]
    ensures StrictlyIncreasing(r)
    ensures forall x :: x in r ==> x in pts
    ensures forall k :: 0 <= k < |pts| ==>
              (pts[k] in r <==> HeavyEnough(total, Mass(h, LastBelow(r, pts[k], prev), pts[k])))
    decreases |pts|
  {
    if |pts| == 0 then []
    else
      var p := pts[0];
      if HeavyEnough(total, Mass(h, prev, p)) then
        var rest := FilterFrom(h, total, pts[1..], p);
        FilterKeep(h, total, pts, prev, rest);
        [p] + rest
      else
        var rest := FilterFrom(h, total, pts[1..], prev);
        FilterDrop(h, total, pts, prev, rest);
        rest
  }

  lemma FilterKeep(h: Histogram, total: nat, pts: seq<int>, prev: int, rest: seq<int>)
    requires |pts| > 0 && StrictlyIncreasing(pts) && InBuckets(pts) && 0 <= prev <= pts[0]
    requires HeavyEnough(total, Mass(h, prev, pts[0]))
    requires StrictlyIncreasing(rest)
    requires forall x :: x in rest ==> x in pts[1..]
    requires forall k :: 0 <= k < |pts| - 1 ==>
               (pts[1..][k] in rest <==> HeavyEnough(total, Mass(h, LastBelow(rest, pts[1..][k], pts[0]), pts[1..][k])))
    ensures StrictlyIncreasing([pts[0]] + rest)
    ensures forall x :: x in [pts[0]] + rest ==> x in pts
    ensures forall k :: 0 <= k < |pts| ==>
              (pts[k] in [pts[0]] + rest <==> HeavyEnough(total, Mass(h, LastBelow([pts[0]] + rest, pts[k], prev), pts[k])))
  {
    var r := [pts[0]] + rest;
    forall x | x in rest
      ensures pts[0] < x
    {
      var k :| 0 <= k < |pts| - 1 && pts[1..][k] == x;
    }
    forall i, j | 0 <= i < j < |r|
      ensures r[i] < r[j]
    {
      assert r[j] == rest[j - 1] && rest[j - 1] in rest;
      if i > 0 {
        assert r[i] == rest[i - 1];
      }
    }
    forall k | 0 <= k < |pts|
      ensures pts[k] in r <==> HeavyEnough(total, Mass(h, LastBelow(r, pts[k], prev), pts[k]))
    {
      if k > 0 {
        assert pts[1..][k - 1] == pts[k];
      }
    }
  }

  lemma FilterDrop(h: Histogram, total: nat, pts: seq<int>, prev: int, rest: seq<int>)
    requires |pts| > 0 && StrictlyIncreasing(pts) && InBuckets(pts) && 0 <= prev <= pts[0]
    requires !HeavyEnough(total, Mass(h, prev, pts[0]))
    requires forall x :: x in rest ==> x in pts[1..]
    requires forall k :: 0 <= k < |pts| - 1 ==>
               (pts[1..][k] in rest <==> HeavyEnough(total, Mass(h, LastBelow(rest, pts[1..][k], prev), pts[1..][k])))
    ensures forall x :: x in rest ==> x in pts
    ensures forall k :: 0 <= k < |pts| ==>
              (pts[k] in rest <==> HeavyEnough(total, Mass(h, LastBelow(rest, pts[k], prev), pts[k])))
  {
    forall x | x in rest
      ensures pts[0] < x
    {
      var k :| 0 <= k < |pts| - 1 && pts[1..][k] == x;
    }
    forall k | 0 <= k < |pts|
      ensures pts[k] in rest <==> HeavyEnough(total, Mass(h, LastBelow(rest, pts[k], prev), pts[k]))
    {
      if k > 0 {
        assert pts[1..][k - 1] == pts[k];
      } else if |rest| > 0 {
        assert rest[0] in rest;
      }
    }
  }

  /** `filterDivisionPoints`: the sorted distinct points, each kept exactly
      when the buckets from the previously kept point (or 0) through it
      inclusive hold at least a tenth of all pixels. */
  function FilterDivisionPoints(h: Histogram, points: seq<int>): (r: seq<int>)
    requires InBuckets(points)
    ensures StrictlyIncreasing(r) && InBuckets(r)
    ensures forall x :: x in r ==> x in points
    ensures forall p :: p in points ==> (p in r <==> HeavyEnough(Sum(h), Mass(h, LastBelow(r, p, 0), p)))
  {
    var sorted := Sorting.SortNumbers(Dedupe(points));
    SortedPoints(points);
    var r := FilterFrom(h, Sum(h), sorted, 0);
    FilteredPoints(h, points, sorted, r);
    r
  }

  /** Carries the filter's per-point verdict from the sorted distinct points
      back to the input points. */
  lemma FilteredPoints(h: Histogram, points: seq<int>, sorted: seq<int>, r: seq<int>)
    requires InBuckets(sorted) && forall x :: x in sorted <==> x in points
    requires forall x :: x in r ==> x in sorted
    requires forall x :: x in r ==> 0 <= x
    requires forall k :: 0 <= k < |sorted| ==>
               (sorted[k] in r <==> HeavyEnough(Sum(h), Mass(h, LastBelow(r, sorted[k], 0), sorted[k])))
    ensures forall x :: x in r ==> x in points
    ensures InBuckets(r)
    ensures forall p :: p in points ==> (p in r <==> HeavyEnough(Sum(h), Mass(h, LastBelow(r, p, 0), p)))
  {
    forall k | 0 <= k < |r|
      ensures 0 <= r[k] <= 255
    {
      assert r[k] in r;
    }
    forall p | p in points
      ensures p in r <==> HeavyEnough(Sum(h), Mass(h, LastBelow(r, p, 0), p))
    {
      var k :| 0 <= k < |sorted| && sorted[k] == p;
    }
  }

  /** `[...new Set(points)].sort((a, b) => a - b)` is strictly increasing and
      holds exactly the input values. */
  lemma SortedPoints(points: seq<int>)
    requires InBuckets(points)
    ensures var sorted := Sorting.SortNumbers(Dedupe(points));
            StrictlyIncreasing(sorted) && InBuckets(sorted) && forall x :: x in sorted <==> x in points
  {
    var distinct := Dedupe(points);
    var sorted := Sorting.SortNumbers(distinct);
    Sorting.SortDistinct(distinct);
    forall k | 0 <= k < |sorted|
      ensures 0 <= sorted[k] <= 255
    {
      assert sorted[k] in distinct;
    }
  }

  // ---------------------------------------------------------------- snapping

  /** `Math.abs(a - b)`. */
  function Dist(a: int, b: int): nat {
    if a < b then b - a else a - b
  }

  /** The position in `vs` of the value nearest to `p`, the first one on ties
      (`findIndex` of the minimal distance). */
  function NearestIndex(vs: seq<int>, p: int): (k: nat)
    requires |vs| > 0
    ensures k < |vs|
    ensures forall j :: 0 <= j < |vs| ==> Dist(p, vs[k]) <= Dist(p, vs[j])
    ensures forall j :: 0 <= j < k ==> Dist(p, vs[j]) > Dist(p, vs[k])
  {
    NearestFrom(vs, p, 1, 0)
  }

  function NearestFrom(vs: seq<int>, p: int, i: nat, best: nat): (k: nat)
    requires best < i <= |vs|
    requires forall j :: 0 <= j < i ==> Dist(p, vs[best]) <= Dist(p, vs[j])
    requires forall j :: 0 <= j < best ==> Dist(p, vs[j]) > Dist(p, vs[best])
    ensures k < |vs|
    ensures forall j :: 0 <= j < |vs| ==> Dist(p, vs[k]) <= Dist(p, vs[j])
    ensures forall j :: 0 <= j < k ==> Dist(p, vs[j]) > Dist(p, vs[k])
    decreases |vs| - i
  {
    if i == |vs| then best
    else NearestFrom(vs, p, i + 1, if Dist(p, vs[i]) < Dist(p, vs[best]) then i else best)
  }

  /** Each point replaced by the nearest of `valleys`, the first one in
      `valleys` when several are equally near. */
  function SnapToValleys(valleys: seq<int>, points: seq<int>): (r: seq<int>)
    requires |valleys| > 0
    ensures |r| == |points|
    ensures forall k :: 0 <= k < |r| ==> r[k] in valleys
    ensures InBuckets(valleys) ==> InBuckets(r)
    ensures forall k, j :: 0 <= k < |r| && 0 <= j < |valleys| ==> Dist(points[k], r[k]) <= Dist(points[k], valleys[j])
    ensures forall k, j :: 0 <= k < |r| && 0 <= j < |valleys| && Dist(points[k], valleys[j]) == Dist(points[k], r[k]) ==>
              r[k] in valleys[..j + 1]
  {
    var r := seq(|points|, k requires 0 <= k < |points| => valleys[NearestIndex(valleys, points[k])]);
    assert forall k :: 0 <= k < |r| ==> r[k] == valleys[NearestIndex(valleys, points[k])];
    r
  }

  // ---------------------------------------------------------------- combined

  const ValleyCandidates := 12
  const PercentileCandidates := 5

  /** The last steps of `multilayerDepthMapDivisions`: the percentile
      points snapped to the nearest of the `valleys`, then mass-filtered:
      a snapped point is kept exactly when the buckets from the previously
      kept point (or 0) through it hold at least a tenth of all pixels. */
  function SnapAndFilter(h: Histogram, valleys: seq<int>, percentiles: seq<int>): (r: seq<int>)
    requires |valleys| > 0 && InBuckets(valleys)
    ensures StrictlyIncreasing(r) && InBuckets(r)
    ensures var snapped := SnapToValleys(valleys, percentiles);
            && (forall x :: x in r ==> x in snapped)
            && forall p :: p in snapped ==> (p in r <==> HeavyEnough(Sum(h), Mass(h, LastBelow(r, p, 0), p)))
    ensures forall x :: x in r ==> x in valleys
    ensures Inner(valleys) ==> Inner(r)
  {
    var snapped := SnapToValleys(valleys, percentiles);
    var r := FilterDivisionPoints(h, snapped);
    SubsetOfValleys(valleys, snapped, r);
    r
  }

  /** The filtered points are among the valley points, and inner buckets
      when the valley points are. */
  lemma SubsetOfValleys(valleys: seq<int>, snapped: seq<int>, r: seq<int>)
    requires forall k :: 0 <= k < |snapped| ==> snapped[k] in valleys
    requires forall x :: x in r ==> x in snapped
    ensures forall x :: x in r ==> x in valleys
    ensures Inner(valleys) ==> Inner(r)
  {
    forall x | x in r
      ensures x in valleys
    {
      var k :| 0 <= k < |snapped| && snapped[k] == x;
    }
    forall k | 0 <= k < |r|
      ensures Inner(valleys) ==> 1 <= r[k] <= 254
    {
      var x := r[k];
      assert x in r;
      var i :| 0 <= i < |valleys| && valleys[i] == x;
    }
  }

  /** `multilayerDepthMapDivisions(depthMap)`, the jitter drawn as `noise`:
      twelve-layer valley points, five-layer percentile points, each
      percentile point snapped to its nearest valley point, then filtered. */
  method MultilayerDepthMapDivisions(depthMap: ImageData, noise: seq<real>) returns (histogram: Histogram, divisionPoints: seq<int>)
    requires |noise| == 256
    ensures forall v :: 0 <= v < 256 ==> histogram[v] == RedCount(depthMap, PixelCount(depthMap), v)
    ensures Sum(histogram) == PixelCount(depthMap)
    ensures StrictlyIncreasing(divisionPoints) && InBuckets(divisionPoints)
    ensures var valleys := ValleyBasedDivision(histogram, ValleyCandidates, noise);
            var percentiles := PercentileBasedDivision(histogram, PercentileCandidates);
            divisionPoints == SnapAndFilter(histogram, valleys, percentiles)
    ensures forall x :: x in divisionPoints ==> x in ValleyBasedDivision(histogram, ValleyCandidates, noise)
    ensures Inner(ValleyBasedDivision(histogram, ValleyCandidates, noise)) ==> Inner(divisionPoints)
  {
    histogram := DepthMapHistogram(depthMap);
    var valleysPoints := ValleyBasedDivision(histogram, ValleyCandidates, noise);
    var percentilePoints := PercentileBasedDivision(histogram, PercentileCandidates);
    divisionPoints := SnapAndFilter(histogram, valleysPoints, percentilePoints);
  }
}

/**
  The nearest-point search of `SplineUtility.GetNearestPoint`: the spline is
  sampled at evenly spaced ratios, each chord between consecutive samples is
  asked how close it comes to the query, and the closest chord becomes the
  range of the next, finer pass. Position evaluation and the chord geometry
  (`PointLineNearestPoint` for a point query, `RayLineNearestPoint` for a ray)
  are parameters; the skeleton is the same for both queries.
 */
module NearestPoint {
  import opened Numerics
  import opened Vectors

  const SubdivisionCountMin: int := 6
  const SubdivisionCountMax: int := 1024

  const PickResolutionMin: int := 2
  const PickResolutionDefault: int := 4
  const PickResolutionMax: int := 64

  /** The most refinement passes a search makes, however many iterations it is asked for. */
  const MaxPasses: int := 10

  /**
    `GetSubdivisionCount(length, resolution)`, given `root`, the square root
    of the length: `sqrt(length) * resolution` clamped to `[6, 1024]` and cast
    to `int`.
   */
  function SubdivisionCount(root: real, resolution: int): (r: int)
    ensures SubdivisionCountMin <= r <= SubdivisionCountMax
    ensures root * resolution as real <= SubdivisionCountMin as real ==> r == SubdivisionCountMin
    ensures root * resolution as real >= SubdivisionCountMax as real ==> r == SubdivisionCountMax
    ensures SubdivisionCountMin as real <= root * resolution as real <= SubdivisionCountMax as real ==>
      r as real <= root * resolution as real < r as real + 1.0
  {
    var wanted := root * resolution as real;
    Truncate(Max(SubdivisionCountMin as real, Min(SubdivisionCountMax as real, wanted)))
  }

  /** A longer span never gets fewer subdivisions at the same resolution. */
  lemma SubdivisionCountMonotone(root1: real, root2: real, resolution: int)
    requires root1 <= root2 && 0 <= resolution
    ensures SubdivisionCount(root1, resolution) <= SubdivisionCount(root2, resolution)
  {
    ScaleMonotone(root1, root2, resolution as real);
  }

  /** The pick resolution actually used: `min(max(PickResolutionMin, resolution), PickResolutionMax)`. */
  function ClampResolution(resolution: int): (r: int)
    ensures PickResolutionMin <= r <= PickResolutionMax
    ensures PickResolutionMin <= resolution <= PickResolutionMax ==> r == resolution
    ensures resolution < PickResolutionMin ==> r == PickResolutionMin
    ensures resolution > PickResolutionMax ==> r == PickResolutionMax
  {
    IntMin(IntMax(PickResolutionMin, resolution), PickResolutionMax)
  }

  /** How many times the refinement loop runs: `min(10, iterations)`, and not at all when that is not positive. */
  function PassCount(iterations: int): (r: nat)
    ensures r <= MaxPasses
    ensures 0 <= iterations <= MaxPasses ==> r == iterations
    ensures iterations > MaxPasses ==> r == MaxPasses
    ensures iterations <= 0 ==> r == 0
  {
    IntMax(0, IntMin(MaxPasses, iterations))
  }

  /** A range of spline ratios: where it starts and how long it is. */
  datatype Segment = Segment(start: real, length: real)

  /** What the query-specific geometry reports for one chord: its closest point, the ratio along the chord, and the squared distance. */
  datatype Probe = Probe(nearest: Vec3, lineParam: Unit, distSq: real)

  /** The best chord so far: its squared distance, its closest point and the spline ratio there. */
  datatype Hit = Hit(distSq: real, nearest: Vec3, time: real)

  datatype ScanResult = ScanResult(segment: Segment, best: Option<Hit>)

  /** One pass: the spline's position at a ratio, the chord geometry, the range searched and the number of samples. */
  datatype Search = Search(position: real -> Vec3, probe: (Vec3, Vec3) -> Probe, range: Segment, segments: int)

  /** The ratio of sample `i`: `start + length * (i / (segments - 1))`. */
  function SampleAt(s: Search, i: int): real
    requires s.segments > 1
  {
    Along(s.range.start, s.range.length, i as real / (s.segments - 1) as real)
  }

  /** What the geometry reports for the chord from sample `i - 1` to sample `i`. */
  function ChordProbe(s: Search, i: int): Probe
    requires 1 <= i < s.segments
  {
    s.probe(s.position(SampleAt(s, i - 1)), s.position(SampleAt(s, i)))
  }

  /** The range of ratios chord `i` spans. */
  function ChordSegment(s: Search, i: int): Segment
    requires 1 <= i < s.segments
  {
    Segment(SampleAt(s, i - 1), SampleAt(s, i) - SampleAt(s, i - 1))
  }

  /** The hit chord `i` records: the probe's distance and point, and the ratio as far along the chord as the probe says. */
  function ChordHit(s: Search, i: int): Hit
    requires 1 <= i < s.segments
  {
    var seg := ChordSegment(s, i);
    var pr := ChordProbe(s, i);
    Hit(pr.distSq, pr.nearest, Along(seg.start, seg.length, pr.lineParam))
  }

  /**
    Reference definition: among chords `1 .. n-1`, the first whose squared
    distance is least.
   */
  function FirstNearest(s: Search, n: int): (k: int)
    requires 1 < n <= s.segments
    ensures 1 <= k < n
    ensures forall j :: 1 <= j < n ==> ChordProbe(s, k).distSq <= ChordProbe(s, j).distSq
    ensures forall j :: 1 <= j < k ==> ChordProbe(s, j).distSq > ChordProbe(s, k).distSq
    decreases n
  {
    if n == 2 then 1
    else
      var k := FirstNearest(s, n - 1);
      if ChordProbe(s, n - 1).distSq < ChordProbe(s, k).distSq then n - 1 else k
  }

  /**
    The scan of `GetNearestPoint(spline, query, range, ..., segments)`: walk
    the chords in order and keep a chord only when it is strictly closer than
    the best so far. With fewer than two samples nothing is scanned and the
    segment stays `(-1, 0)` with every output at infinity.
   */
  method Scan(s: Search) returns (r: ScanResult)
    ensures s.segments <= 1 ==> r == ScanResult(Segment(-1.0, 0.0), None)
    ensures s.segments > 1 ==>
      var k := FirstNearest(s, s.segments);
      r == ScanResult(ChordSegment(s, k), Some(ChordHit(s, k)))
  {
    r := ScanResult(Segment(-1.0, 0.0), None);
    if s.segments <= 1 {
      return;
    }
    var t0 := s.range.start;
    assert t0 == SampleAt(s, 0);
    var a := s.position(t0);
    var i := 1;
    while i < s.segments
      invariant 1 <= i <= s.segments
      invariant t0 == SampleAt(s, i - 1) && a == s.position(t0)
      invariant i == 1 ==> r == ScanResult(Segment(-1.0, 0.0), None)
      invariant i > 1 ==>
        var k := FirstNearest(s, i);
        r == ScanResult(ChordSegment(s, k), Some(ChordHit(s, k)))
    {
      var t1 := SampleAt(s, i);
      var b := s.position(t1);
      var pr := s.probe(a, b);
      assert pr == ChordProbe(s, i);
      if r.best.None? || pr.distSq < r.best.value.distSq {
        var segment := Segment(t0, t1 - t0);
        r := ScanResult(segment, Some(Hit(pr.distSq, pr.nearest, Along(segment.start, segment.length, pr.lineParam))));
      }
      t0 := t1;
      a := b;
      i := i + 1;
    }
  }

  /** Sample ratios lie in the searched range and never go backwards. */
  lemma SamplesStayInRange(s: Search, i: int)
    requires s.segments > 1 && 0 <= i < s.segments - 1 && 0.0 <= s.range.length
    ensures s.range.start <= SampleAt(s, i) <= SampleAt(s, i + 1) <= s.range.start + s.range.length
  {
    var d := (s.segments - 1) as real;
    RatioBounds(i as real, d);
    RatioBounds((i + 1) as real, d);
    DivideMonotone(i as real, (i + 1) as real, d);
    AlongWithin(s.range.start, s.range.length, i as real / d);
    AlongWithin(s.range.start, s.range.length, (i + 1) as real / d);
    AlongMonotone(s.range.start, s.range.length, i as real / d, (i + 1) as real / d);
  }

  /** A segment that lies within a range, start and end, and runs forwards. */
  predicate Within(inner: Segment, outer: Segment) {
    && 0.0 <= inner.length
    && outer.start <= inner.start
    && inner.start + inner.length <= outer.start + outer.length
  }

  /** Every chord lies within the searched range, and its hit's ratio within the chord. */
  lemma ChordWithinRange(s: Search, k: int)
    requires 1 <= k < s.segments && 0.0 <= s.range.length
    ensures Within(ChordSegment(s, k), s.range)
    ensures var seg := ChordSegment(s, k);
      seg.start <= ChordHit(s, k).time <= seg.start + seg.length
  {
    SamplesStayInRange(s, k - 1);
    var seg := ChordSegment(s, k);
    AlongWithin(seg.start, seg.length, ChordProbe(s, k).lineParam);
  }

  /**
    `GetNearestPoint(spline, query, out nearest, out t, resolution, iterations)`:
    start from the whole spline, `(0, 1)`, and for each pass subdivide the
    current range by its share of the spline length and rescan it. `length`
    is the spline's total length and `sqrt` the square root the subdivision
    count is taken of. The answer is the last pass's hit and its ratio; with
    no pass at all nothing is found and `t` stays 0.
   */
  method GetNearestPoint(position: real -> Vec3, probe: (Vec3, Vec3) -> Probe, length: real, sqrt: real -> real,
                         resolution: int, iterations: int) returns (best: Option<Hit>, t: real)
    ensures PassCount(iterations) == 0 ==> best == None && t == 0.0
    ensures PassCount(iterations) > 0 ==> best.Some? && t == best.value.time && 0.0 <= t <= 1.0
  {
    best := None;
    var segment := Segment(0.0, 1.0);
    t := 0.0;
    var res := ClampResolution(resolution);
    var i := 0;
    var c := IntMin(MaxPasses, iterations);
    while i < c
      invariant 0 <= i && (i > 0 ==> i <= c)
      invariant Within(segment, Segment(0.0, 1.0))
      invariant i == 0 ==> best == None && t == 0.0
      invariant i > 0 ==> best.Some? && t == best.value.time && segment.start <= t <= segment.start + segment.length
    {
      var segments := SubdivisionCount(sqrt(length * segment.length), res);
      var search := Search(position, probe, segment, segments);
      var scanned := Scan(search);
      var k := FirstNearest(search, segments);
      ChordWithinRange(search, k);
      segment := scanned.segment;
      best := scanned.best;
      t := best.value.time;
      i := i + 1;
    }
    assert i == PassCount(iterations);
  }
}

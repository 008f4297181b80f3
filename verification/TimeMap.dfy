/** From processed to original time (`whisper_vad`, `map_processed_to_original_time`): the table of mapping points, and
the interpolation in it, keep time from running backwards. */
module TimeMap {
  import opened Arithmetic
  import opened SpeechDetection
  import opened SpeechSegments

  datatype Point = Point(processed: int, original: int)

  // ---------------------------------------------------------------- Chains of points

  predicate Comparable(a: Point, b: Point) {
    || (a.processed <= b.processed && a.original <= b.original)
    || (b.processed <= a.processed && b.original <= a.original)
  }

  ghost predicate Chain(s: seq<Point>) {
    forall a, b | a in s && b in s :: Comparable(a, b)
  }

  /** No point lies beyond the processed time `p` or the original time `o`. */
  ghost predicate UpTo(s: seq<Point>, p: int, o: int) {
    forall a | a in s :: a.processed <= p && a.original <= o
  }

  lemma ChainPush(s: seq<Point>, q: Point)
    requires Chain(s) && forall a | a in s :: Comparable(a, q)
    ensures Chain(s + [q])
  {
  }

  lemma ChainPushLast(s: seq<Point>, p: int, o: int, q: Point)
    requires Chain(s) && UpTo(s, p, o) && p <= q.processed && o <= q.original
    ensures Chain(s + [q]) && UpTo(s + [q], q.processed, q.original)
  {
    ChainPush(s, q);
  }

  // ---------------------------------------------------------------- Lines between two points

  function Scaled(e: nat, total: nat, span: nat): nat
    requires span > 0
  {
    (e * total) / span
  }

  lemma ScaledMonotone(e: nat, f: nat, total: nat, v: nat)
    requires e <= f && v > 0
    ensures Scaled(e, total, v) <= Scaled(f, total, v)
    ensures e == v ==> Scaled(e, total, v) == total
    ensures e == 0 ==> Scaled(e, total, v) == 0
    ensures f <= v ==> Scaled(f, total, v) <= total
  {
    MulMonotone(e, f, total);
    DivMonotone(e * total, f * total, v);
    MulDiv(total, v);
    if f <= v {
      MulMonotone(f, v, total);
      DivMonotone(f * total, v * total, v);
    }
  }

  /** The point of the line from `a` to `b` at processed time `t`, rounded down. */
  function Interpolated(a: Point, b: Point, t: int): int
    requires a.processed <= t <= b.processed && a.original <= b.original && a.processed < b.processed
  {
    a.original + Scaled(t - a.processed, b.original - a.original, b.processed - a.processed)
  }

  /** `y` is the original time at processed time `t` on the line from `a` to `b`, rounded down. */
  predicate OnLine(a: Point, b: Point, t: int, y: int) {
    IsShare(y - a.original, t - a.processed, b.original - a.original, b.processed - a.processed)
  }

  lemma InterpolatedIsOnLine(a: Point, b: Point, t: int)
    requires a.processed <= t <= b.processed && a.original <= b.original && a.processed < b.processed
    ensures OnLine(a, b, t, Interpolated(a, b, t))
  {
    hide IsShare;
    QuotientIsShare(t - a.processed, b.original - a.original, b.processed - a.processed);
  }

  lemma LineIsMonotone(a: Point, b: Point, t: int, u: int)
    requires a.processed <= t <= u <= b.processed && a.original <= b.original && a.processed < b.processed
    ensures a.original <= Interpolated(a, b, t) <= Interpolated(a, b, u) <= b.original
    ensures t == a.processed ==> Interpolated(a, b, t) == a.original
    ensures u == b.processed ==> Interpolated(a, b, u) == b.original
  {
    hide Scaled;
    var total, v := b.original - a.original, b.processed - a.processed;
    ScaledMonotone(t - a.processed, u - a.processed, total, v);
    ScaledMonotone(u - a.processed, v, total, v);
    if u == b.processed {
      ScaledMonotone(v, v, total, v);
    }
  }

  // ---------------------------------------------------------------- Looking up

  /** Processed times strictly increase, and original times never decrease. */
  ghost predicate Increasing(table: seq<Point>) {
    forall i, j | 0 <= i < j < |table| :: table[i].processed < table[j].processed &&
      table[i].original <= table[j].original
  }

  /** The first place whose processed time is at least `t`. */
  function FirstAtLeast(table: seq<Point>, t: int): (k: nat)
    ensures k <= |table|
  {
    if table == [] || table[0].processed >= t then 0 else 1 + FirstAtLeast(table[1..], t)
  }

  lemma {:induction false} FirstAtLeastIs(table: seq<Point>, t: int, k: nat)
    requires Increasing(table) && k <= |table|
    requires k > 0 ==> table[k - 1].processed < t
    requires k < |table| ==> table[k].processed >= t
    ensures FirstAtLeast(table, t) == k
  {
    if k > 0 {
      assert table[0].processed <= table[k - 1].processed;
      FirstAtLeastIs(table[1..], t, k - 1);
    }
  }

  lemma {:induction false} FirstAtLeastSplits(table: seq<Point>, t: int)
    ensures FirstAtLeast(table, t) < |table| ==> table[FirstAtLeast(table, t)].processed >= t
    ensures forall i | 0 <= i < FirstAtLeast(table, t) :: table[i].processed < t
  {
    if table != [] && table[0].processed < t {
      FirstAtLeastSplits(table[1..], t);
    }
  }

  function MapTime(table: seq<Point>, t: int): int
    requires Increasing(table)
  {
    if table == [] then t
    else if t <= table[0].processed then table[0].original
    else if t >= table[|table| - 1].processed then table[|table| - 1].original
    else
      FirstAtLeastSplits(table, t);
      var k := FirstAtLeast(table, t);
      Interpolated(table[k - 1], table[k], t)
  }

  /** Between two neighbouring points lies the line between them. */
  lemma MapInside(table: seq<Point>, t: int) returns (k: nat)
    requires Increasing(table) && table != [] && table[0].processed < t < table[|table| - 1].processed
    ensures 0 < k < |table| && table[k - 1].processed < t <= table[k].processed
    ensures MapTime(table, t) == Interpolated(table[k - 1], table[k], t)
    ensures table[k - 1].original <= MapTime(table, t) <= table[k].original
  {
    FirstAtLeastSplits(table, t);
    k := FirstAtLeast(table, t);
    LineIsMonotone(table[k - 1], table[k], t, t);
  }

  lemma MapAtEnds(table: seq<Point>, t: int)
    requires Increasing(table) && table != []
    ensures t <= table[0].processed ==> MapTime(table, t) == table[0].original
    ensures t >= table[|table| - 1].processed ==> MapTime(table, t) == table[|table| - 1].original
  {
  }

  lemma OriginalsGrow(table: seq<Point>, i: nat, j: nat)
    requires Increasing(table) && i <= j < |table|
    ensures table[i].original <= table[j].original && table[i].processed <= table[j].processed
    ensures i < j ==> table[i].processed < table[j].processed
  {
  }

  lemma PlacesInOrder(table: seq<Point>, i: nat, j: nat)
    requires Increasing(table) && i < |table| && j < |table| && table[i].processed < table[j].processed
    ensures i < j
  {
  }

  /** Mapped times stay between the first and the last original time. */
  lemma MapIsBounded(table: seq<Point>, t: int)
    requires Increasing(table) && table != []
    ensures table[0].original <= MapTime(table, t) <= table[|table| - 1].original
  {
    hide MapTime, Increasing;
    MapAtEnds(table, t);
    OriginalsGrow(table, 0, |table| - 1);
    if table[0].processed < t < table[|table| - 1].processed {
      var k := MapInside(table, t);
      OriginalsGrow(table, 0, k - 1);
      OriginalsGrow(table, k, |table| - 1);
    }
  }

  /** Mapping never turns time back. */
  lemma MapIsMonotone(table: seq<Point>, t: int, u: int)
    requires Increasing(table) && t <= u
    ensures MapTime(table, t) <= MapTime(table, u)
  {
    if table != [] {
      hide MapTime, Increasing;
      MapIsBounded(table, t);
      MapIsBounded(table, u);
      MapAtEnds(table, t);
      MapAtEnds(table, u);
      if table[0].processed < t && u < table[|table| - 1].processed {
        var k := MapInside(table, t);
        var l := MapInside(table, u);
        if k == l {
          OriginalsGrow(table, k - 1, k);
          LineIsMonotone(table[k - 1], table[k], t, u);
        } else {
          PlacesInOrder(table, k - 1, l);
          OriginalsGrow(table, k, l - 1);
        }
      }
    }
  }

  /** A point of the table is mapped to its own original time. */
  lemma MapHitsPoints(table: seq<Point>, i: nat)
    requires Increasing(table) && i < |table|
    ensures MapTime(table, table[i].processed) == table[i].original
  {
    if 0 < i < |table| - 1 {
      FirstAtLeastIs(table, table[i].processed, i);
      LineIsMonotone(table[i - 1], table[i], table[i].processed, table[i].processed);
    }
  }

  /** Between two neighbouring points of the table, the map is the line between them. */
  lemma MapIsOnLine(table: seq<Point>, t: int, k: nat)
    requires Increasing(table) && 0 < k < |table| && table[k - 1].processed <= t <= table[k].processed
    ensures OnLine(table[k - 1], table[k], t, MapTime(table, t))
  {
    hide OnLine;
    OriginalsGrow(table, k - 1, k);
    InterpolatedIsOnLine(table[k - 1], table[k], t);
    LineIsMonotone(table[k - 1], table[k], t, t);
    if t == table[k - 1].processed {
      MapHitsPoints(table, k - 1);
    } else if t == table[k].processed {
      MapHitsPoints(table, k);
    } else {
      OriginalsGrow(table, 0, k - 1);
      OriginalsGrow(table, k, |table| - 1);
      FirstAtLeastIs(table, t, k);
    }
  }

  method LowerBound(table: seq<Point>, t: int) returns (k: nat)
    requires Increasing(table)
    ensures k == FirstAtLeast(table, t)
  {
    var lo, hi := 0, |table|;
    while lo < hi
      invariant 0 <= lo <= hi <= |table|
      invariant lo > 0 ==> table[lo - 1].processed < t
      invariant hi < |table| ==> table[hi].processed >= t
    {
      var mid := (lo + hi) / 2;
      if table[mid].processed < t {
        lo := mid + 1;
      } else {
        hi := mid;
      }
    }
    FirstAtLeastIs(table, t, lo);
    k := lo;
  }

  method MapProcessedToOriginalTime(t: int, table: seq<Point>) returns (r: int)
    requires Increasing(table)
    ensures r == MapTime(table, t)
    ensures table == [] ==> r == t
    ensures forall k | 0 < k < |table| && table[k - 1].processed <= t <= table[k].processed ::
      OnLine(table[k - 1], table[k], t, r)
  {
    hide OnLine;
    forall k: nat | 0 < k < |table| && table[k - 1].processed <= t <= table[k].processed
      ensures OnLine(table[k - 1], table[k], t, MapTime(table, t))
    {
      MapIsOnLine(table, t, k);
    }
    if table == [] {
      return t;
    }
    if t <= table[0].processed {
      return table[0].original;
    }
    if t >= table[|table| - 1].processed {
      return table[|table| - 1].original;
    }
    var k := LowerBound(table, t);
    FirstAtLeastSplits(table, t);
    var upper, lower := table[k], table[k - 1];
    LineIsMonotone(lower, upper, t, t);
    if upper.processed == t {
      return upper.original;
    }
    var processedDiff, originalDiff, offset := upper.processed - lower.processed, upper.original - lower.original,
      t - lower.processed;
    if processedDiff == 0 {
      return lower.original;
    }
    r := lower.original + (offset * originalDiff) / processedDiff;
  }

  // ---------------------------------------------------------------- Building the table

  const SILENCE_SAMPLES: nat := 1600
  const MIN_SEGMENT_LENGTH := 100
  const POINT_INTERVAL := 20

  function CsToSamples(cs: int): int {
    (cs as real / 100.0 * SAMPLE_RATE as real + 0.5).Floor
  }

  /** A hundredth of a second is 160 samples, and a sample is mapped to the nearest hundredth. */
  lemma TimesAreNearest(cs: int, samples: nat)
    ensures CsToSamples(cs) == 160 * cs
    ensures -80 < CsToSamples(SamplesToCs(samples)) - samples <= 80
  {
    SamplesInCs(cs);
    SamplesInCs(SamplesToCs(samples));
    CsOfSamples(samples);
  }

  lemma SamplesInCs(cs: int)
    ensures CsToSamples(cs) == 160 * cs
  {
    assert cs as real / 100.0 * 16000.0 == (160 * cs) as real;
  }

  lemma CsOfSamples(samples: nat)
    ensures -80 < 160 * SamplesToCs(samples) - samples <= 80
  {
    var t := samples as real / 16000.0 * 100.0 + 0.5;
    assert 160.0 * t == samples as real + 80.0;
  }

  /** Segments of speech, in hundredths of a second, in order. */
  ghost predicate SegmentsOk(segments: seq<Segment>) {
    && (forall i | 0 <= i < |segments| :: 0 <= segments[i].start <= segments[i].end)
    && (forall i | 0 <= i < |segments| - 1 :: segments[i].end <= segments[i + 1].start)
  }

  /** What holds of the points made so far, at a place of the processed audio. */
  ghost predicate Built(table: seq<Point>, processed: int, original: int) {
    Chain(table) && UpTo(table, processed, original)
  }

  lemma BuiltLater(table: seq<Point>, p: int, o: int, p': int, o': int)
    requires Built(table, p, o) && p <= p' && o <= o'
    ensures Built(table, p', o')
  {
  }

  lemma BuiltPush(table: seq<Point>, p: int, o: int, q: Point)
    requires Built(table, p, o) && p <= q.processed && o <= q.original
    ensures Built(table + [q], q.processed, q.original)
  {
    ChainPushLast(table, p, o, q);
  }

  /** A point from before a segment, or one on the line from its start to its end. */
  predicate BeforeOrOn(a: Point, from: Point, to: Point) {
    || (a.processed <= from.processed && a.original <= from.original)
    || (&& from.processed < to.processed && from.original <= to.original &&
      from.processed <= a.processed <= to.processed
        && a.original == Interpolated(from, to, a.processed))
  }

  ghost predicate AllBeforeOrOn(table: seq<Point>, from: Point, to: Point) {
    forall a | a in table :: BeforeOrOn(a, from, to)
  }

  lemma PointOnLine(table: seq<Point>, from: Point, to: Point, q: Point)
    requires Built(table, to.processed, to.original) && AllBeforeOrOn(table, from, to)
    requires from.processed < to.processed && from.original <= to.original &&
      from.processed <= q.processed <= to.processed
    requires q.original == Interpolated(from, to, q.processed)
    ensures Built(table + [q], to.processed, to.original) && AllBeforeOrOn(table + [q], from, to)
  {
    hide Interpolated;
    LineIsMonotone(from, to, q.processed, q.processed);
    forall a | a in table
      ensures Comparable(a, q)
    {
      assert BeforeOrOn(a, from, to);
      if !(a.processed <= from.processed && a.original <= from.original) {
        if a.processed <= q.processed {
          LineIsMonotone(from, to, a.processed, q.processed);
        } else {
          LineIsMonotone(from, to, q.processed, a.processed);
        }
      }
    }
    ChainPush(table, q);
  }

  lemma EndsAreOn(table: seq<Point>, from: Point, to: Point)
    requires UpTo(table, from.processed, from.original) && from.processed < to.processed && from.original <= to.original
    ensures AllBeforeOrOn(table + [from] + [to], from, to)
  {
    LineIsMonotone(from, to, from.processed, to.processed);
  }

  /** How many points the line of a long segment is offered. */
  function LineCount(from: Point, to: Point): int {
    var duration := to.processed - from.processed;
    if duration > MIN_SEGMENT_LENGTH then duration / POINT_INTERVAL - 1 else 0
  }

  /** The first `n` of them, as far as they lie before the end. */
  function LinePoints(from: Point, to: Point, n: int): seq<Point> {
    if n <= 0 then []
    else
      var t := from.processed + n * POINT_INTERVAL;
      LinePoints(from, to, n - 1) + if from.processed < t < to.processed &&
        from.original <= to.original then [Point(t, Interpolated(from, to, t))] else []
  }

  /** The processed times on the line of a long segment: every 200 ms from its start, and not in the last 200 ms. */
  ghost predicate IsLineTime(from: Point, to: Point, t: int) {
    && to.processed - from.processed > MIN_SEGMENT_LENGTH
    && exists j :: j >= 1 && t == from.processed + j * POINT_INTERVAL && t + POINT_INTERVAL <= to.processed
  }

  lemma {:induction false} LinePointsTo(from: Point, to: Point, n: int, q: Point)
    ensures q in LinePoints(from, to, n) ==>
      && from.processed < q.processed < to.processed && from.original <= to.original &&
        OnLine(from, to, q.processed, q.original)
      && exists j :: 1 <= j <= n && q.processed == from.processed + j * POINT_INTERVAL
    decreases if n > 0 then n else 0
  {
    hide OnLine, Interpolated;
    if n > 0 && q in LinePoints(from, to, n) {
      if q in LinePoints(from, to, n - 1) {
        LinePointsTo(from, to, n - 1, q);
      } else {
        InterpolatedIsOnLine(from, to, q.processed);
      }
    }
  }

  lemma {:induction false} LinePointsHave(from: Point, to: Point, n: int, j: int)
    requires 1 <= j <= n && from.processed + j * POINT_INTERVAL < to.processed && from.original <= to.original
    ensures HasTime(LinePoints(from, to, n), from.processed + j * POINT_INTERVAL)
    decreases n
  {
    hide Interpolated;
    var t := from.processed + j * POINT_INTERVAL;
    if j < n {
      LinePointsHave(from, to, n - 1, j);
      var q :| q in LinePoints(from, to, n - 1) && q.processed == t;
      assert q in LinePoints(from, to, n);
    } else {
      assert Point(t, Interpolated(from, to, t)) in LinePoints(from, to, n);
    }
  }

  /** The points added to a segment are on its line, one for each of those times. */
  lemma SegmentLineIs(from: Point, to: Point)
    requires from.original <= to.original
    ensures forall q | q in LinePoints(from, to, LineCount(from, to)) ::
      IsLineTime(from, to, q.processed) && OnLine(from, to, q.processed, q.original)
    ensures forall t | IsLineTime(from, to, t) :: HasTime(LinePoints(from, to, LineCount(from, to)), t)
  {
    hide OnLine, LinePoints, HasTime;
    var n := LineCount(from, to);
    forall q | q in LinePoints(from, to, n)
      ensures IsLineTime(from, to, q.processed) && OnLine(from, to, q.processed, q.original)
    {
      LinePointsTo(from, to, n, q);
    }
    forall t | IsLineTime(from, to, t)
      ensures HasTime(LinePoints(from, to, n), t)
    {
      var j :| j >= 1 && t == from.processed + j * POINT_INTERVAL && t + POINT_INTERVAL <= to.processed;
      LinePointsHave(from, to, n, j);
    }
  }

  /** All points of a copied segment. */
  function SegmentPoints(from: Point, to: Point): seq<Point> {
    [from, to] + LinePoints(from, to, LineCount(from, to))
  }

  /** Adds points to the line of a long segment. */
  method AddIntermediate(table: seq<Point>, from: Point, to: Point) returns (out: seq<Point>)
    requires Built(table, to.processed, to.original) && from.original <= to.original
    requires from.processed < to.processed ==> AllBeforeOrOn(table, from, to)
    ensures Built(out, to.processed, to.original) && out == table + LinePoints(from, to, LineCount(from, to))
  {
    hide Built, AllBeforeOrOn;
    out := table;
    if to.processed - from.processed > MIN_SEGMENT_LENGTH {
      var numPoints := (to.processed - from.processed) / POINT_INTERVAL - 1;
      var j := 1;
      while j <= numPoints
        invariant 1 <= j <= numPoints + 1 && out == table + LinePoints(from, to, j - 1)
        invariant Built(out, to.processed, to.original) && AllBeforeOrOn(out, from, to)
      {
        var vadTime := from.processed + j * POINT_INTERVAL;
        if vadTime < to.processed {
          var q := Point(vadTime, from.original
            + ((vadTime - from.processed) * (to.original - from.original)) / (to.processed - from.processed));
          PointOnLine(out, from, to, q);
          out := out + [q];
        }
        j := j + 1;
      }
    }
  }

  /** Adds the points of one segment of `length` samples at `offset`. */
  method AddSegment(table: seq<Point>, segment: Segment, offset: nat, length: nat) returns (out: seq<Point>)
    requires segment.start <= segment.end && Built(table, SamplesToCs(offset), segment.start)
    ensures Built(out, SamplesToCs(offset + length), segment.end)
    ensures out == table + SegmentPoints(Point(SamplesToCs(offset), segment.start),
      Point(SamplesToCs(offset + length), segment.end))
  {
    hide Interpolated, SamplesToCs, Built, LinePoints;
    var from, to := Point(SamplesToCs(offset), segment.start), Point(SamplesToCs(offset + length), segment.end);
    RoundingIsMonotone(offset, offset + length);
    BuiltUpTo(table, from.processed, from.original);
    BuiltPush(table, from.processed, from.original, from);
    BuiltPush(table + [from], from.processed, from.original, to);
    out := table + [from] + [to];
    if from.processed < to.processed {
      EndsAreOn(table, from, to);
    }
    out := AddIntermediate(out, from, to);
    assert table + [from] + [to] == table + [from, to];
  }

  lemma BuiltUpTo(table: seq<Point>, p: int, o: int)
    requires Built(table, p, o)
    ensures UpTo(table, p, o)
  {
  }

  // ---------------------------------------------------------------- Sorting

  ghost predicate Sorted(s: seq<Point>) {
    forall i, j | 0 <= i < j < |s| :: s[i].processed <= s[j].processed
  }

  /** The same points, each as often. */
  ghost predicate SamePoints(r: seq<Point>, s: seq<Point>) {
    multiset(r) == multiset(s)
  }

  /** Stands for the library's sort, which may put points of the same processed time in any order. */
  method SortByProcessed(s: seq<Point>) returns (r: seq<Point>)
    ensures Sorted(r) && SamePoints(r, s)
  {
    hide Sorted, SamePoints;
    r := [];
    NothingSorted();
    NoPointsYet(s);
    for i := 0 to |s|
      invariant Sorted(r) && SamePoints(r, s[..i])
    {
      var k := 0;
      while k < |r| && r[k].processed <= s[i].processed
        invariant k <= |r| && forall j | 0 <= j < k :: r[j].processed <= s[i].processed
      {
        k := k + 1;
      }
      InsertSorted(r, k, s[i]);
      InsertSame(r, k, s, i);
      r := r[..k] + [s[i]] + r[k..];
    }
    assert s[..|s|] == s;
  }

  lemma NothingSorted()
    ensures Sorted([])
  {
  }

  lemma InsertSorted(r: seq<Point>, k: nat, q: Point)
    requires Sorted(r) && k <= |r| && (forall j | 0 <= j < k :: r[j].processed <= q.processed)
    requires k < |r| ==> q.processed <= r[k].processed
    ensures Sorted(r[..k] + [q] + r[k..])
  {
    var t := r[..k] + [q] + r[k..];
    forall i, j | 0 <= i < j < |t|
      ensures t[i].processed <= t[j].processed
    {
      assert t[i] == if i < k then r[i] else if i == k then q else r[i - 1];
      assert t[j] == if j < k then r[j] else if j == k then q else r[j - 1];
    }
  }

  lemma InsertCount(r: seq<Point>, k: nat, q: Point)
    requires k <= |r|
    ensures multiset(r[..k] + [q] + r[k..]) == multiset(r) + multiset{q}
  {
    assert r == r[..k] + r[k..];
  }

  lemma NoPointsYet(s: seq<Point>)
    ensures SamePoints([], s[..0])
  {
  }

  lemma InsertSame(r: seq<Point>, k: nat, s: seq<Point>, i: nat)
    requires k <= |r| && i < |s| && SamePoints(r, s[..i])
    ensures SamePoints(r[..k] + [s[i]] + r[k..], s[..i + 1])
  {
    InsertCount(r, k, s[i]);
    PrefixCount(s, i);
  }

  lemma PrefixCount(s: seq<Point>, i: nat)
    requires i < |s|
    ensures multiset(s[..i + 1]) == multiset(s[..i]) + multiset{s[i]}
  {
    assert s[..i + 1] == s[..i] + [s[i]];
  }

  ghost predicate Strict(r: seq<Point>) {
    forall i, j | 0 <= i < j < |r| :: r[i].processed < r[j].processed
  }

  ghost predicate HasTime(r: seq<Point>, p: int) {
    exists q :: q in r && q.processed == p
  }

  ghost predicate AllIn(r: seq<Point>, s: seq<Point>) {
    forall q | q in r :: q in s
  }

  /** Every processed time of `s` occurs in `r`. */
  ghost predicate AllTimesIn(s: seq<Point>, r: seq<Point>) {
    forall q | q in s :: HasTime(r, q.processed)
  }

  /** What is left of the first `n` sorted points when only the first of each processed time is kept. */
  ghost predicate FirstsOf(r: seq<Point>, s: seq<Point>, n: nat)
    requires n <= |s|
  {
    && Strict(r) && AllIn(r, s)
    && (n == 0 ==> r == [])
    && (n > 0 ==> r != [] && r[|r| - 1].processed == s[n - 1].processed)
    && (forall k | 0 <= k < n :: HasTime(r, s[k].processed))
  }

  lemma StrictPush(r: seq<Point>, q: Point)
    requires Strict(r) && (r != [] ==> r[|r| - 1].processed < q.processed)
    ensures Strict(r + [q])
  {
  }

  lemma HasTimePush(r: seq<Point>, q: Point, p: int)
    requires HasTime(r, p) || q.processed == p
    ensures HasTime(r + [q], p)
  {
    if q.processed == p {
      assert q in r + [q];
    } else {
      var a :| a in r && a.processed == p;
      assert a in r + [q];
    }
  }

  lemma AllInPush(r: seq<Point>, s: seq<Point>, n: nat)
    requires AllIn(r, s) && n < |s|
    ensures AllIn(r + [s[n]], s)
  {
  }

  lemma NextFirst(r: seq<Point>, s: seq<Point>, n: nat)
    requires Sorted(s) && n < |s| && FirstsOf(r, s, n)
    ensures FirstsOf(if r == [] || r[|r| - 1].processed != s[n].processed then r + [s[n]] else r, s, n + 1)
  {
    hide Strict, AllIn, HasTime, Sorted;
    Neighbours(s, n);
    if r == [] || r[|r| - 1].processed != s[n].processed {
      StrictPush(r, s[n]);
      AllInPush(r, s, n);
      forall k | 0 <= k < n + 1
        ensures HasTime(r + [s[n]], s[k].processed)
      {
        HasTimePush(r, s[n], s[k].processed);
      }
    } else {
      LastHasTime(r);
    }
  }

  lemma LastHasTime(r: seq<Point>)
    requires r != []
    ensures HasTime(r, r[|r| - 1].processed)
  {
    assert r[|r| - 1] in r;
  }

  lemma Neighbours(s: seq<Point>, n: nat)
    requires Sorted(s) && n < |s|
    ensures n > 0 ==> s[n - 1].processed <= s[n].processed
  {
  }

  method Unique(s: seq<Point>) returns (r: seq<Point>)
    requires Sorted(s)
    ensures FirstsOf(r, s, |s|)
  {
    hide FirstsOf, Sorted;
    r := [];
    NoFirsts(s);
    for n := 0 to |s|
      invariant FirstsOf(r, s, n)
    {
      NextFirst(r, s, n);
      if r == [] || r[|r| - 1].processed != s[n].processed {
        r := r + [s[n]];
      }
    }
  }

  lemma NoFirsts(s: seq<Point>)
    ensures FirstsOf([], s, 0)
  {
  }

  /** Sorted and without duplicate processed times, a chain is increasing. */
  lemma ChainIsIncreasing(points: seq<Point>, sorted: seq<Point>, r: seq<Point>)
    requires Chain(points) && SamePoints(sorted, points) && FirstsOf(r, sorted, |sorted|)
    ensures Increasing(r) && AllIn(r, points) && AllTimesIn(points, r)
  {
    hide HasTime, Chain, AllIn;
    StillIn(r, sorted, points);
    forall q | q in points
      ensures HasTime(r, q.processed)
    {
      assert q in multiset(sorted);
      var k :| 0 <= k < |sorted| && sorted[k] == q;
    }
    forall i, j | 0 <= i < j < |r|
      ensures r[i].processed < r[j].processed && r[i].original <= r[j].original
    {
      InOrder(points, r, i, j);
    }
  }

  lemma StillIn(r: seq<Point>, sorted: seq<Point>, points: seq<Point>)
    requires AllIn(r, sorted) && multiset(sorted) == multiset(points)
    ensures AllIn(r, points)
  {
    forall q | q in r
      ensures q in points
    {
      assert q in multiset(sorted);
    }
  }

  lemma InOrder(points: seq<Point>, r: seq<Point>, i: nat, j: nat)
    requires Chain(points) && AllIn(r, points) && i < |r| && j < |r| && r[i].processed < r[j].processed
    ensures r[i].original <= r[j].original
  {
    assert r[i] in r && r[j] in r;
    assert Comparable(r[i], r[j]);
  }

  // ---------------------------------------------------------------- The whole table

  function AtMost(a: int, b: int): int {
    if b < a then b else a
  }

  /** The samples of segment `i` that are copied. */
  function SegmentLength(segments: seq<Segment>, i: nat, nSamples: nat, overlap: nat): int
    requires i < |segments|
  {
    var end := CsToSamples(segments[i].end) + if i < |segments| - 1 then overlap else 0;
    AtMost(end, nSamples - 1) - AtMost(CsToSamples(segments[i].start), nSamples - 1)
  }

  /** What segment `i`, with the silence after it, adds when it begins at sample `offset` of the processed audio. */
  function Added(segments: seq<Segment>, i: nat, nSamples: nat, overlap: nat, offset: nat): seq<Point>
    requires i < |segments|
  {
    var length := SegmentLength(segments, i, nSamples, overlap);
    if length <= 0 then []
    else
      var end := offset + length;
      SegmentPoints(Point(SamplesToCs(offset), segments[i].start), Point(SamplesToCs(end), segments[i].end))
      + if i + 1 < |segments| then [Point(SamplesToCs(end), segments[i].end),
        Point(SamplesToCs(end + SILENCE_SAMPLES), segments[i + 1].start)] else []
  }

  /** The sample of the processed audio at which segment `i` begins. */
  function Offset(segments: seq<Segment>, i: nat, nSamples: nat, overlap: nat): nat
    requires i <= |segments|
  {
    if i == 0 then 0
    else
      var length := SegmentLength(segments, i - 1, nSamples, overlap);
      Offset(segments, i - 1, nSamples, overlap)
      + if length <= 0 then 0 else length + if i < |segments| then SILENCE_SAMPLES else 0
  }

  /** All points of the first `i` segments. */
  function AllPoints(segments: seq<Segment>, i: nat, nSamples: nat, overlap: nat): seq<Point>
    requires i <= |segments|
  {
    if i == 0 then []
    else AllPoints(segments, i - 1, nSamples, overlap) + Added(segments, i - 1, nSamples, overlap,
      Offset(segments, i - 1, nSamples, overlap))
  }

  /** The ends of each copied segment are among the points. */
  lemma {:induction false} EndsAreIn(segments: seq<Segment>, i: nat, n: nat, nSamples: nat, overlap: nat)
    requires i < n <= |segments| && SegmentLength(segments, i, nSamples, overlap) > 0
    ensures var offset, length := Offset(segments, i, nSamples, overlap), SegmentLength(segments, i, nSamples, overlap);
      && Point(SamplesToCs(offset), segments[i].start) in AllPoints(segments, n, nSamples, overlap)
      && Point(SamplesToCs(offset + length), segments[i].end) in AllPoints(segments, n, nSamples, overlap)
  {
    hide SamplesToCs, SegmentLength, Added;
    if i < n - 1 {
      EndsAreIn(segments, i, n - 1, nSamples, overlap);
    } else {
      EndsAreAdded(segments, i, nSamples, overlap, Offset(segments, i, nSamples, overlap));
    }
  }

  lemma EndsAreAdded(segments: seq<Segment>, i: nat, nSamples: nat, overlap: nat, offset: nat)
    requires i < |segments| && SegmentLength(segments, i, nSamples, overlap) > 0
    ensures Point(SamplesToCs(offset), segments[i].start) in Added(segments, i, nSamples, overlap, offset)
    ensures Point(SamplesToCs(offset + SegmentLength(segments, i, nSamples, overlap)),
      segments[i].end) in Added(segments, i, nSamples, overlap, offset)
  {
    hide SamplesToCs, SegmentLength, SegmentPoints;
    var from, to := Point(SamplesToCs(offset), segments[i].start),
      Point(SamplesToCs(offset + SegmentLength(segments, i, nSamples, overlap)), segments[i].end);
    EndsAreFirst(from, to);
  }

  lemma EndsAreFirst(from: Point, to: Point)
    ensures from in SegmentPoints(from, to) && to in SegmentPoints(from, to)
  {
    hide LinePoints, LineCount;
    assert SegmentPoints(from, to)[0] == from && SegmentPoints(from, to)[1] == to;
  }

  // ---------------------------------------------------------------- The copied audio

  /** Segment `i` has been copied to its place in the processed audio: sample by sample, with its overlap, and with
      silence after it unless it is the last one. */
  ghost predicate IsCopied(filtered: seq<real>, samples: seq<real>, segments: seq<Segment>, i: nat, overlap: nat)
    requires i < |segments|
  {
    var start, offset := CsToSamples(segments[i].start), Offset(segments, i, |samples|, overlap);
    var length := SegmentLength(segments, i, |samples|, overlap);
    var end := offset + length;
    length > 0 ==>
      && start >= 0 && start + length <= |samples| && end <= |filtered|
      && filtered[offset..end] == samples[start..start + length]
      && (i < |segments| - 1 ==>
            end + SILENCE_SAMPLES <= |filtered| && forall k | end <= k < end + SILENCE_SAMPLES :: filtered[k] == 0.0)
  }

  /** The first `i` segments have been copied, and nothing else. */
  ghost predicate AreCopied(filtered: seq<real>, samples: seq<real>, segments: seq<Segment>, i: nat, overlap: nat)
    requires i <= |segments|
  {
    && |filtered| == Offset(segments, i, |samples|, overlap)
    && forall j: nat | j < i :: IsCopied(filtered, samples, segments, j, overlap)
  }

  lemma CopiedStays(filtered: seq<real>, more: seq<real>, samples: seq<real>, segments: seq<Segment>, i: nat,
                    overlap: nat)
    requires i < |segments| && IsCopied(filtered, samples, segments, i, overlap)
    ensures IsCopied(filtered + more, samples, segments, i, overlap)
  {
    hide Offset, SegmentLength, CsToSamples;
    var r, offset := filtered + more, Offset(segments, i, |samples|, overlap);
    var end := offset + SegmentLength(segments, i, |samples|, overlap);
    assert offset <= end <= |filtered| ==> r[offset..end] == filtered[offset..end];
  }

  /** Which samples are copied: those from the start of the segment to its end, with the overlap unless it is the last
      one, but never the last sample of the audio. */
  lemma CopiedPartIs(segments: seq<Segment>, i: nat, nSamples: nat, overlap: nat)
    requires SegmentsOk(segments) && i < |segments|
    ensures var start, length := 160 * segments[i].start, SegmentLength(segments, i, nSamples, overlap);
      var stop := 160 * segments[i].end + if i == |segments| - 1 then 0 else overlap;
      && (length > 0 <==> start < stop && start < nSamples - 1)
      && (length > 0 ==> start + length <= stop && start + length <= nSamples - 1)
      && (length > 0 ==> start + length == stop || start + length == nSamples - 1)
  {
    SamplesInCs(segments[i].start);
    SamplesInCs(segments[i].end);
  }

  /** Where a copied segment begins and ends in the audio. */
  lemma SegmentIsInside(segments: seq<Segment>, i: nat, nSamples: nat, overlap: nat)
    requires SegmentsOk(segments) && i < |segments| && SegmentLength(segments, i, nSamples, overlap) > 0
    ensures var start, length := CsToSamples(segments[i].start), SegmentLength(segments, i, nSamples, overlap);
      0 <= start && AtMost(start, nSamples - 1) == start && start + length <= nSamples
  {
  }

  method CopySegment(filtered: seq<real>, samples: seq<real>, segments: seq<Segment>, i: nat, overlap: nat)
    returns (r: seq<real>)
    requires SegmentsOk(segments) && i < |segments| && AreCopied(filtered, samples, segments, i, overlap)
    ensures AreCopied(r, samples, segments, i + 1, overlap)
  {
    hide SegmentsOk, SegmentLength, CsToSamples, IsCopied;
    var length := SegmentLength(segments, i, |samples|, overlap);
    r := filtered;
    ghost var more: seq<real> := [];
    if length > 0 {
      SegmentIsInside(segments, i, |samples|, overlap);
      var start := AtMost(CsToSamples(segments[i].start), |samples| - 1);
      r := r + samples[start..start + length];
      more := samples[start..start + length];
      if i < |segments| - 1 {
        var silence := seq(SILENCE_SAMPLES, _ => 0.0);
        r := r + silence;
        more := more + silence;
      }
    }
    assert r == filtered + more;
    assert |r| == Offset(segments, i + 1, |samples|, overlap);
    forall j: nat | j < i
      ensures IsCopied(r, samples, segments, j, overlap)
    {
      CopiedStays(filtered, more, samples, segments, j, overlap);
    }
    NewIsCopied(filtered, more, samples, segments, i, overlap);
  }

  lemma NewIsCopied(filtered: seq<real>, more: seq<real>, samples: seq<real>, segments: seq<Segment>, i: nat,
                    overlap: nat)
    requires i < |segments| && |filtered| == Offset(segments, i, |samples|, overlap)
    requires var start, length := CsToSamples(segments[i].start), SegmentLength(segments, i, |samples|, overlap);
      length > 0 ==>
        && 0 <= start && start + length <= |samples|
        && more == samples[start..start + length] +
          if i < |segments| - 1 then seq(SILENCE_SAMPLES, _ => 0.0) else []
    ensures IsCopied(filtered + more, samples, segments, i, overlap)
  {
    hide SegmentLength, CsToSamples, Offset;
  }

  /** The processed times at which each copied segment begins and ends are in the table. */
  ghost predicate EndsAreMapped(table: seq<Point>, segments: seq<Segment>, nSamples: nat, overlap: nat) {
    forall i: nat | i < |segments| && SegmentLength(segments, i, nSamples, overlap) > 0 ::
      && HasTime(table, SamplesToCs(Offset(segments, i, nSamples, overlap)))
      && HasTime(table, SamplesToCs(Offset(segments, i, nSamples, overlap) + SegmentLength(segments, i, nSamples,
        overlap)))
  }

  lemma AllEndsAreMapped(table: seq<Point>, segments: seq<Segment>, nSamples: nat, overlap: nat)
    requires AllTimesIn(AllPoints(segments, |segments|, nSamples, overlap), table)
    ensures EndsAreMapped(table, segments, nSamples, overlap)
  {
    hide SamplesToCs, SegmentLength, HasTime, AllPoints, Offset;
    forall i: nat | i < |segments| && SegmentLength(segments, i, nSamples, overlap) > 0
      ensures HasTime(table, SamplesToCs(Offset(segments, i, nSamples, overlap)))
      ensures HasTime(table, SamplesToCs(Offset(segments, i, nSamples, overlap) + SegmentLength(segments, i, nSamples,
        overlap)))
    {
      EndsAreIn(segments, i, |segments|, nSamples, overlap);
    }
  }

  class VadState {
    var mappingTable: seq<Point>
    var hasVadSegments: bool

    /** Adds the points of segment `i`, and of the silence after it; gives the samples written so far. */
    method AddPoints(segments: seq<Segment>, i: nat, nSamples: nat, overlap: nat, offset: nat) returns (next: nat)
      requires SegmentsOk(segments) && i < |segments| && Built(mappingTable, SamplesToCs(offset), segments[i].start)
      modifies this`mappingTable
      ensures i + 1 < |segments| ==> Built(mappingTable, SamplesToCs(next), segments[i + 1].start)
      ensures i + 1 == |segments| ==> Built(mappingTable, SamplesToCs(next), segments[i].end)
      ensures mappingTable == old(mappingTable) + Added(segments, i, nSamples, overlap, offset)
      ensures offset == Offset(segments, i, nSamples, overlap) ==> next == Offset(segments, i + 1, nSamples, overlap)
    {
      hide SamplesToCs, Built, SegmentsOk, SegmentLength, SegmentPoints;
      SegmentsInOrder(segments, i);
      next := offset;
      var length := SegmentLength(segments, i, nSamples, overlap);
      if length > 0 {
        mappingTable := AddSegment(mappingTable, segments[i], offset, length);
        next := offset + length;
        if i < |segments| - 1 {
          var from, to := Point(SamplesToCs(next), segments[i].end),
            Point(SamplesToCs(next + SILENCE_SAMPLES), segments[i + 1].start);
          RoundingIsMonotone(next, next + SILENCE_SAMPLES);
          BuiltPush(mappingTable, from.processed, from.original, from);
          mappingTable := mappingTable + [from];
          BuiltPush(mappingTable, from.processed, from.original, to);
          mappingTable := mappingTable + [to];
          next := next + SILENCE_SAMPLES;
        }
      } else {
        BuiltLater(mappingTable, SamplesToCs(offset), segments[i].start, SamplesToCs(offset),
                   if i < |segments| - 1 then segments[i + 1].start else segments[i].end);
      }
    }

    lemma SegmentsInOrder(segments: seq<Segment>, i: nat)
      requires SegmentsOk(segments) && i < |segments|
      ensures segments[i].start <= segments[i].end
      ensures i + 1 < |segments| ==> segments[i].end <= segments[i + 1].start
    {
    }

    /** Copies the segments, with silences between them, and builds the mapping table: processed times strictly
        increase, original times never decrease, and the table holds points of the segments only, one for each of their
        processed times. */
    method BuildMapping(segments: seq<Segment>, samples: seq<real>, overlap: nat) returns (filtered: seq<real>)
      requires SegmentsOk(segments)
      modifies this
      ensures Increasing(mappingTable) && hasVadSegments == (segments != [])
      ensures AllIn(mappingTable, AllPoints(segments, |segments|, |samples|, overlap))
      ensures AllTimesIn(AllPoints(segments, |segments|, |samples|, overlap), mappingTable)
      ensures EndsAreMapped(mappingTable, segments, |samples|, overlap)
      ensures AreCopied(filtered, samples, segments, |segments|, overlap)
    {
      hide SamplesToCs, Built, SegmentsOk, Increasing, FirstsOf, Sorted, Chain, AllTimesIn, AllIn, Added, EndsAreMapped,
        SegmentLength, AreCopied;
      mappingTable, hasVadSegments, filtered := [], segments != [], [];
      var offset, nSamples := 0, |samples|;
      NothingCopied(samples, segments, overlap);
      if segments == [] {
        NoPoints(0, 0);
        NoTimes(segments, nSamples, overlap);
        return;
      }
      NoPoints(SamplesToCs(0), segments[0].start);
      for i := 0 to |segments|
        invariant i < |segments| ==> Built(mappingTable, SamplesToCs(offset), segments[i].start)
        invariant i == |segments| ==> Built(mappingTable, SamplesToCs(offset), segments[i - 1].end)
        invariant hasVadSegments && mappingTable == AllPoints(segments, i, nSamples, overlap) &&
          offset == Offset(segments, i, nSamples, overlap)
        invariant AreCopied(filtered, samples, segments, i, overlap)
      {
        offset := AddPoints(segments, i, nSamples, overlap, offset);
        filtered := CopySegment(filtered, samples, segments, i, overlap);
      }
      BuiltChain(mappingTable, SamplesToCs(offset), segments[|segments| - 1].end);
      var sorted := SortByProcessed(mappingTable);
      var unique := Unique(sorted);
      ChainIsIncreasing(mappingTable, sorted, unique);
      AllEndsAreMapped(unique, segments, nSamples, overlap);
      mappingTable := unique;
    }
  }

  lemma NothingCopied(samples: seq<real>, segments: seq<Segment>, overlap: nat)
    ensures AreCopied([], samples, segments, 0, overlap)
  {
  }

  lemma NoPoints(p: int, o: int)
    ensures Built([], p, o) && Increasing([])
  {
  }

  lemma NoTimes(segments: seq<Segment>, nSamples: nat, overlap: nat)
    requires segments == []
    ensures AllIn([], []) && AllTimesIn([], []) && EndsAreMapped([], segments, nSamples, overlap)
  {
  }

  lemma BuiltChain(table: seq<Point>, p: int, o: int)
    requires Built(table, p, o)
    ensures Chain(table)
  {
  }
}

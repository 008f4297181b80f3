/** The floor curve of Vorbis (`predict_point`, `draw_line`, `do_floor`, `neighbors` and the setup of a type-1 floor):
lines drawn by error accumulation are the closed form, and the curve covers the spectrum once. */
module FloorCurve {
  import opened Arithmetic
  import opened Bits

  // ---------------------------------------------------------------- One line

  function Abs(x: int): nat {
    if x < 0 then -x else x
  }

  /** The quotient of a product of natural numbers. */
  function Scaled(k: nat, rise: nat, run: nat): nat
    requires run > 0
  {
    (k * rise) / run
  }

  function Left(k: nat, rise: nat, run: nat): nat
    requires run > 0
  {
    (k * rise) % run
  }

  /** Section 9.2.6 of the Vorbis I specification: the line from (x0, y0) to (x1, y1) at `x`. */
  function PredictPoint(x: int, x0: int, x1: int, y0: int, y1: int): int
    requires x0 < x1 && x0 <= x
  {
    var off := Scaled(x - x0, Abs(y1 - y0), x1 - x0);
    if y1 - y0 < 0 then y0 - off else y0 + off
  }

  /** The sign of a number. */
  function Sign(x: int): int {
    if x < 0 then -1 else if x == 0 then 0 else 1
  }

  /** The line goes from y0 towards y1, by the share of the way that `x` has come, rounded towards y0, and ends
      there. */
  lemma PredictIsOnLine(x: int, x0: int, x1: int, y0: int, y1: int)
    requires x0 < x1 && x0 <= x <= x1
    ensures var d := PredictPoint(x, x0, x1, y0, y1) - y0;
      && (d == 0 || Sign(d) == Sign(y1 - y0)) && Abs(d) <= Abs(y1 - y0)
      && IsShare(Abs(d), x - x0, Abs(y1 - y0), x1 - x0)
    ensures PredictPoint(x0, x0, x1, y0, y1) == y0 && PredictPoint(x1, x0, x1, y0, y1) == y1
  {
    hide IsShare, Scaled;
    ScaledIs(x - x0, Abs(y1 - y0), x1 - x0);
    ScaledIs(0, Abs(y1 - y0), x1 - x0);
    ScaledIs(x1 - x0, Abs(y1 - y0), x1 - x0);
  }

  lemma ScaledIs(e: nat, rise: nat, run: nat)
    requires run > 0 && e <= run
    ensures IsShare(Scaled(e, rise, run), e, rise, run) && Scaled(e, rise, run) <= rise
    ensures (e == 0 ==> Scaled(e, rise, run) == 0) && (e == run ==> Scaled(e, rise, run) == rise)
  {
    hide IsShare;
    QuotientIsShare(e, rise, run);
    MulMonotone(e, run, rise);
    DivMonotone(e * rise, run * rise, run);
    MulDiv(rise, run);
  }

  lemma NoSteps(rise: nat, run: nat)
    requires run > 0
    ensures Scaled(0, rise, run) == 0 && Left(0, rise, run) == 0
  {
  }

  /** One step along a line: the whole part of the slope, and one more when the error overflows. */
  lemma OneStep(k: nat, rise: nat, run: nat)
    requires run > 0
    ensures var err := Left(k, rise, run) + rise % run;
      if err >= run
      then Scaled(k + 1, rise, run) == Scaled(k, rise, run) + rise / run + 1 && Left(k + 1, rise, run) == err - run
      else Scaled(k + 1, rise, run) == Scaled(k, rise, run) + rise / run && Left(k + 1, rise, run) == err
  {
    OneMore(k, rise);
    QuotientOfSum(k * rise, rise, run);
  }

  lemma OneMore(k: nat, rise: nat)
    ensures (k + 1) * rise == k * rise + rise
  {
  }

  /** The entry of the table of decibel factors that a height selects: its lowest eight bits. */
  function Factor(table: seq<real>, y: int): real
    requires |table| == 256
  {
    table[y % 256]
  }

  /** Division that truncates, as in the source language. */
  function Truncated(a: int, b: int): int
    requires b > 0
  {
    if a < 0 then -((-a) / b) else a / b
  }

  /** The value at `x` has been multiplied by the factor of height `y`. */
  predicate ScaledAt(before: seq<real>, after: seq<real>, table: seq<real>, x: nat, y: int)
    requires |table| == 256
  {
    x < |before| && x < |after| && after[x] == before[x] * Factor(table, y)
  }

  /** Every drawn point has the height of the closed form. */
  method DrawLine(output: array<real>, x0: nat, y0: int, x1: nat, y1: int, n: nat, table: seq<real>)
    requires x0 < x1 && n <= output.Length && |table| == 256
    modifies output
    ensures forall x: nat | x0 <= x < x1 && x < n ::
      ScaledAt(old(output[..]), output[..], table, x, PredictPoint(x, x0, x1, y0, y1))
    ensures forall x | 0 <= x < output.Length && !(x0 <= x < x1 && x < n) :: output[x] == old(output[x])
  {
    hide Factor, Scaled, Left;
    ghost var start := output[..];
    var dy, adx := y1 - y0, x1 - x0;
    var ady := Abs(dy);
    ghost var rise := ady;
    var slope := Truncated(dy, adx);
    var sy := if dy < 0 then slope - 1 else slope + 1;
    SlopeIs(dy, adx);
    ady := ady - Abs(slope) * adx;
    var x, y, err := x0, y0, 0;
    NoSteps(rise, adx);
    var end := if x1 > n then n else x1;
    if x < end {
      output[x] := output[x] * Factor(table, y);
      x := x + 1;
      while x < end
        invariant x0 < x <= end
        invariant err == Left(x - 1 - x0, rise, adx) && y == PredictPoint(x - 1, x0, x1, y0, y1)
        invariant forall k: nat | x0 <= k < x :: ScaledAt(start, output[..], table, k, PredictPoint(k, x0, x1, y0, y1))
        invariant forall k | 0 <= k < output.Length && !(x0 <= k < x) :: output[k] == start[k]
      {
        OneStep(x - 1 - x0, rise, adx);
        err := err + ady;
        if err >= adx {
          err := err - adx;
          y := y + sy;
        } else {
          y := y + slope;
        }
        ghost var before := output[..];
        output[x] := output[x] * Factor(table, y);
        StillScaled(start, before, output[..], table, x0, x, x1, y0, y1);
        x := x + 1;
      }
    }
  }

  lemma SlopeIs(dy: int, adx: nat)
    requires adx > 0
    ensures Abs(Truncated(dy, adx)) == Abs(dy) / adx
    ensures Abs(dy) - Abs(Truncated(dy, adx)) * adx == Abs(dy) % adx
    ensures Truncated(dy, adx) == if dy < 0 then -(Abs(dy) / adx) else Abs(dy) / adx
  {
    QuotientAndRemainder(Abs(dy), adx);
  }

  lemma StillScaled(start: seq<real>, before: seq<real>, after: seq<real>, table: seq<real>, x0: nat, x: nat, x1: nat,
                    y0: int, y1: int)
    requires |table| == 256 && x0 < x1 && |before| == |after| && x < |after|
    requires forall k | 0 <= k < |before| && k != x :: after[k] == before[k]
    requires forall k: nat | x0 <= k < x :: ScaledAt(start, before, table, k, PredictPoint(k, x0, x1, y0, y1))
    ensures forall k: nat | x0 <= k < x :: ScaledAt(start, after, table, k, PredictPoint(k, x0, x1, y0, y1))
  {
    hide Factor, PredictPoint;
    forall k: nat | x0 <= k < x
      ensures ScaledAt(start, after, table, k, PredictPoint(k, x0, x1, y0, y1))
    {
      assert ScaledAt(start, before, table, k, PredictPoint(k, x0, x1, y0, y1));
    }
  }

  // ---------------------------------------------------------------- Neighbours

  /** The nearest lower and the nearest higher of the positions before `n`. */
  ghost predicate AreNeighbors(xs: seq<nat>, n: nat, low: nat, high: nat) {
    && n < |xs| && low < n && high < n && xs[low] < xs[n] < xs[high]
    && forall i | 0 <= i < n :: !(xs[low] < xs[i] < xs[n]) && !(xs[n] < xs[i] < xs[high])
  }

  method Neighbors(xs: seq<nat>, n: nat) returns (low: nat, high: nat)
    requires n < |xs| && (forall i | 0 <= i <= n :: xs[i] < 65536)
    requires (exists i :: 0 <= i < n && xs[i] < xs[n]) && (exists i :: 0 <= i < n && xs[i] > xs[n])
    ensures AreNeighbors(xs, n, low, high)
  {
    low, high := 0, 0;
    var lowX: int, highX: int := -1, 65536;
    for i := 0 to n
      invariant lowX == -1 || (low < n && lowX == xs[low] < xs[n])
      invariant highX == 65536 || (high < n && highX == xs[high] > xs[n])
      invariant forall k | 0 <= k < i :: (xs[k] < xs[n] ==> xs[k] <= lowX) && (xs[k] > xs[n] ==> xs[k] >= highX)
    {
      if xs[i] > lowX && xs[i] < xs[n] {
        low, lowX := i, xs[i];
      }
      if xs[i] < highX && xs[i] > xs[n] {
        high, highX := i, xs[i];
      }
    }
  }

  // ---------------------------------------------------------------- Sorting the positions

  predicate AllDistinct(xs: seq<nat>) {
    forall i, j | 0 <= i < j < |xs| :: xs[i] != xs[j]
  }

  /** A permutation of the first `n` indices. */
  ghost predicate IsOrder(order: seq<nat>, n: nat) {
    && |order| == n && (forall k | 0 <= k < n :: order[k] < n) && (forall j: nat | j < n :: j in order)
    && (forall a, b | 0 <= a < b < n :: order[a] != order[b])
  }

  ghost predicate Ascends(xs: seq<nat>, order: seq<nat>) {
    && (forall k | 0 <= k < |order| :: order[k] < |xs|)
    && (forall a, b | 0 <= a < b < |order| :: xs[order[a]] <= xs[order[b]])
  }

  ghost predicate StrictlyAscends(xs: seq<nat>, order: seq<nat>) {
    && (forall k | 0 <= k < |order| :: order[k] < |xs|)
    && (forall a, b | 0 <= a < b < |order| :: xs[order[a]] < xs[order[b]])
  }

  lemma StillIn(order: seq<nat>, n: nat, k: nat, j: nat)
    requires k <= |order| && j in order
    ensures j in order[..k] + [n] + order[k..]
  {
    assert order == order[..k] + order[k..];
  }

  lemma InsertKeepsOrder(order: seq<nat>, n: nat, k: nat)
    requires IsOrder(order, n) && k <= n
    ensures IsOrder(order[..k] + [n] + order[k..], n + 1)
  {
    var t := order[..k] + [n] + order[k..];
    forall j: nat | j < n + 1
      ensures j in t
    {
      if j < n {
        assert j in order;
        StillIn(order, n, k, j);
      } else {
        assert t[k] == n;
      }
    }
    assert forall a | 0 <= a < n + 1 :: t[a] == if a < k then order[a] else if a == k then n else order[a - 1];
  }

  lemma InsertAscends(xs: seq<nat>, order: seq<nat>, n: nat, k: nat)
    requires Ascends(xs, order) && n < |xs| && k <= |order|
    requires (forall a | 0 <= a < k :: xs[order[a]] <= xs[n]) && (k < |order| ==> xs[n] <= xs[order[k]])
    ensures Ascends(xs, order[..k] + [n] + order[k..])
  {
    var t := order[..k] + [n] + order[k..];
    forall a, b | 0 <= a < b < |t|
      ensures xs[t[a]] <= xs[t[b]]
    {
      assert t[a] == if a < k then order[a] else if a == k then n else order[a - 1];
      assert t[b] == if b < k then order[b] else if b == k then n else order[b - 1];
    }
  }

  lemma NoOrder(xs: seq<nat>)
    ensures IsOrder([], 0) && Ascends(xs, [])
  {
  }

  /** Stands for the library's sort of the positions with their indices. */
  method SortPositions(xs: seq<nat>) returns (order: seq<nat>)
    ensures IsOrder(order, |xs|) && Ascends(xs, order)
  {
    hide IsOrder;
    order := [];
    NoOrder(xs);
    for n := 0 to |xs|
      invariant IsOrder(order, n) && Ascends(xs, order) && |order| == n
    {
      var k := 0;
      while k < |order| && xs[order[k]] <= xs[n]
        invariant k <= |order| && forall a | 0 <= a < k :: xs[order[a]] <= xs[n]
      {
        k := k + 1;
      }
      InsertKeepsOrder(order, n, k);
      InsertAscends(xs, order, n, k);
      order := order[..k] + [n] + order[k..];
    }
  }

  /** Distinct neighbours in order are distinct everywhere. */
  lemma StrictIsDistinct(xs: seq<nat>, order: seq<nat>)
    requires IsOrder(order, |xs|) && StrictlyAscends(xs, order)
    ensures AllDistinct(xs)
  {
    forall i: nat, j: nat | i < j < |xs|
      ensures xs[i] != xs[j]
    {
      assert i in order && j in order;
      var a :| 0 <= a < |order| && order[a] == i;
      var b :| 0 <= b < |order| && order[b] == j;
      PlacesDiffer(xs, order, a, b);
    }
  }

  lemma PlacesDiffer(xs: seq<nat>, order: seq<nat>, a: nat, b: nat)
    requires StrictlyAscends(xs, order) && a < |order| && b < |order| && order[a] != order[b]
    ensures xs[order[a]] != xs[order[b]]
  {
  }

  lemma EqualIsNotDistinct(xs: seq<nat>, order: seq<nat>, a: nat)
    requires IsOrder(order, |xs|) && a + 1 < |order| && order[a] < |xs| && order[a + 1] < |xs| &&
      xs[order[a]] == xs[order[a + 1]]
    ensures !AllDistinct(xs)
  {
    assert order[a] != order[a + 1];
  }

  lemma ChainIsStrict(xs: seq<nat>, order: seq<nat>)
    requires Ascends(xs, order) && forall a | 0 <= a < |order| - 1 :: xs[order[a]] != xs[order[a + 1]]
    ensures StrictlyAscends(xs, order)
  {
    forall a, b | 0 <= a < b < |order|
      ensures xs[order[a]] < xs[order[b]]
    {
      assert xs[order[a]] < xs[order[a + 1]] <= xs[order[b]];
    }
  }

  lemma OrderInside(xs: seq<nat>, order: seq<nat>)
    requires IsOrder(order, |xs|)
    ensures |order| == |xs| && forall k | 0 <= k < |order| :: order[k] < |xs|
  {
  }

  // ---------------------------------------------------------------- A floor

  class Floor1 {
    var xlist: seq<nat>
    var sortedOrder: seq<nat>
    var neighbors: seq<(nat, nat)>
    var multiplier: nat

    ghost predicate Valid()
      reads this
    {
      && 1 <= multiplier <= 4
      && |xlist| >= 2 && xlist[0] == 0 && (forall j | 0 <= j < |xlist| :: xlist[j] <= xlist[1])
      && IsOrder(sortedOrder, |xlist|) && StrictlyAscends(xlist, sortedOrder)
      && |neighbors| == |xlist|
      && (forall j | 2 <= j < |xlist| :: AreNeighbors(xlist, j, neighbors[j].0, neighbors[j].1))
    }

    /** Sorts the positions and finds the neighbours; fails exactly if two positions are the same. */
    method SetUp(positions: seq<nat>, mult: nat) returns (ok: bool)
      requires |positions| >= 2 && positions[0] == 0 < positions[1] < 65536 && 1 <= mult <= 4
      requires forall j | 2 <= j < |positions| :: positions[j] < positions[1]
      modifies this
      ensures ok <==> AllDistinct(positions)
      ensures ok ==> Valid() && xlist == positions && multiplier == mult
    {
      hide IsOrder, Ascends, StrictlyAscends, AreNeighbors;
      xlist, multiplier := positions, mult;
      var order := SortPositions(positions);
      OrderInside(positions, order);
      for j := 0 to |positions| - 1
        invariant xlist == positions && multiplier == mult
        invariant forall a | 0 <= a < j :: positions[order[a]] != positions[order[a + 1]]
      {
        if positions[order[j]] == positions[order[j + 1]] {
          EqualIsNotDistinct(positions, order, j);
          return false;
        }
      }
      ChainIsStrict(positions, order);
      StrictIsDistinct(positions, order);
      sortedOrder := order;
      var found := seq(|positions|, _ => (0, 0));
      for j := 2 to |positions|
        invariant xlist == positions && multiplier == mult && sortedOrder == order
        invariant |found| == |positions| && forall k | 2 <= k < j :: AreNeighbors(positions, k, found[k].0, found[k].1)
      {
        assert positions[0] < positions[j] < positions[1];
        var low, high := Neighbors(positions, j);
        found := found[j := (low, high)];
      }
      neighbors := found;
      ok := true;
    }
  }

  // ---------------------------------------------------------------- The curve

  /** The points of a curve in order of position, and those that take part. */
  datatype Knots = Knots(xs: seq<nat>, order: seq<nat>, finalY: seq<int>, mult: nat)

  ghost predicate KnotsOk(k: Knots) {
    && |k.order| >= 1 && StrictlyAscends(k.xs, k.order) && |k.finalY| >= |k.xs|
    && k.xs[k.order[0]] == 0 && k.order[0] == 0
  }

  predicate IsUsed(k: Knots, q: nat) {
    q == 0 || (q < |k.order| && k.order[q] < |k.finalY| && k.finalY[k.order[q]] >= 0)
  }

  function Position(k: Knots, q: nat): nat {
    if q < |k.order| && k.order[q] < |k.xs| then k.xs[k.order[q]] else 0
  }

  function Height(k: Knots, q: nat): int {
    if q < |k.order| && k.order[q] < |k.finalY| then k.finalY[k.order[q]] * k.mult else 0
  }

  /** Between two knots in use that follow each other, the curve is the line between them. */
  ghost predicate OnLine(k: Knots, a: nat, b: nat, x: nat, y: int) {
    && a < b < |k.order| && IsUsed(k, a) && IsUsed(k, b) && (forall c | a < c < b :: !IsUsed(k, c))
    && Position(k, a) <= x < Position(k, b)
    && y == PredictPoint(x, Position(k, a), Position(k, b), Height(k, a), Height(k, b))
  }

  /** After the last knot in use, the curve is level. */
  ghost predicate OnTail(k: Knots, a: nat, x: nat, y: int) {
    && a < |k.order| && IsUsed(k, a) && (forall c | a < c < |k.order| :: !IsUsed(k, c))
    && Position(k, a) <= x && y == Height(k, a)
  }

  ghost predicate OnCurve(k: Knots, x: nat, y: int) {
    (exists a: nat, b: nat :: OnLine(k, a, b, x, y)) || (exists a: nat :: OnTail(k, a, x, y))
  }

  lemma PositionsInOrder(k: Knots, a: nat, b: nat)
    requires KnotsOk(k) && a < |k.order| && b < |k.order|
    ensures a < b ==> Position(k, a) < Position(k, b)
  {
  }

  /** The curve has one height at each position. */
  lemma CurveIsOne(k: Knots, x: nat, y: int, z: int)
    requires KnotsOk(k) && OnCurve(k, x, y) && OnCurve(k, x, z)
    ensures y == z
  {
    hide KnotsOk, Position, Height, PredictPoint, IsUsed;
    if a: nat, b: nat :| OnLine(k, a, b, x, y) {
      if c: nat, d: nat :| OnLine(k, c, d, x, z) {
        SameLine(k, x, y, z, a, b, c, d);
      } else {
        var c: nat :| OnTail(k, c, x, z);
        LineOrTail(k, x, y, z, a, b, c);
      }
    } else {
      var a: nat :| OnTail(k, a, x, y);
      if c: nat, d: nat :| OnLine(k, c, d, x, z) {
        LineOrTail(k, x, z, y, c, d, a);
      } else {
        var c: nat :| OnTail(k, c, x, z);
        SameTail(k, x, y, z, a, c);
      }
    }
  }

  lemma SameTail(k: Knots, x: nat, y: int, z: int, a: nat, c: nat)
    requires OnTail(k, a, x, y) && OnTail(k, c, x, z)
    ensures y == z
  {
    hide IsUsed, Height, Position;
  }

  lemma SameLine(k: Knots, x: nat, y: int, z: int, a: nat, b: nat, c: nat, d: nat)
    requires KnotsOk(k) && OnLine(k, a, b, x, y) && OnLine(k, c, d, x, z)
    ensures y == z
  {
    hide KnotsOk, Position, Height, PredictPoint, IsUsed;
    PositionsInOrder(k, b, c);
    PositionsInOrder(k, d, a);
    assert b != c && d != a;
    assert !(a < c < b) && !(c < a < d);
    assert !(a < d < b) && !(c < b < d);
  }

  lemma LineOrTail(k: Knots, x: nat, y: int, z: int, a: nat, b: nat, c: nat)
    requires KnotsOk(k)
    ensures !(OnLine(k, a, b, x, y) && OnTail(k, c, x, z))
  {
    hide KnotsOk, Height, PredictPoint, IsUsed, Position;
    if b < |k.order| && c < |k.order| {
      PositionsInOrder(k, b, c);
    }
  }

  ghost predicate ScaledByCurve(k: Knots, before: seq<real>, after: seq<real>, table: seq<real>, x: nat)
    requires |table| == 256
  {
    exists y :: OnCurve(k, x, y) && ScaledAt(before, after, table, x, y)
  }

  /** The curve is drawn up to `end`, and the rest is as it was. */
  ghost predicate DrawnTo(k: Knots, before: seq<real>, after: seq<real>, table: seq<real>, end: nat, n2: nat)
    requires |table| == 256
  {
    && |after| == |before|
    && (forall x: nat | x < end && x < n2 :: ScaledByCurve(k, before, after, table, x))
    && (forall x | 0 <= x < |before| && (x >= end || x >= n2) :: after[x] == before[x])
  }

  lemma LineIsDrawn(k: Knots, start: seq<real>, before: seq<real>, after: seq<real>, table: seq<real>, a: nat, b: nat,
                    n2: nat)
    requires |table| == 256 && n2 <= |start| && DrawnTo(k, start, before, table, Position(k, a), n2) &&
      |after| == |before|
    requires a < b < |k.order| && IsUsed(k, a) && IsUsed(k, b) && (forall c | a < c < b :: !IsUsed(k, c))
    requires Position(k, a) < Position(k, b)
    requires forall x: nat | Position(k, a) <= x < Position(k, b) && x < n2 ::
      ScaledAt(before, after, table, x, PredictPoint(x, Position(k, a), Position(k, b), Height(k, a), Height(k, b)))
    requires forall x | 0 <= x < |before| && !(Position(k, a) <= x < Position(k, b) && x < n2) :: after[x] == before[x]
    ensures DrawnTo(k, start, after, table, Position(k, b), n2)
  {
    hide PredictPoint, IsUsed, Position, Height, Factor, KnotsOk;
    forall x: nat | x < Position(k, b) && x < n2
      ensures ScaledByCurve(k, start, after, table, x)
    {
      if x < Position(k, a) {
        assert ScaledByCurve(k, start, before, table, x);
        var y :| OnCurve(k, x, y) && ScaledAt(start, before, table, x, y);
        assert ScaledAt(start, after, table, x, y);
      } else {
        var y := PredictPoint(x, Position(k, a), Position(k, b), Height(k, a), Height(k, b));
        assert OnLine(k, a, b, x, y);
        assert ScaledAt(before, after, table, x, y);
        assert ScaledAt(start, after, table, x, y);
      }
    }
  }

  lemma TailIsDrawn(k: Knots, start: seq<real>, before: seq<real>, after: seq<real>, table: seq<real>, a: nat, n2: nat)
    requires |table| == 256 && n2 <= |start| && DrawnTo(k, start, before, table, Position(k, a), n2) &&
      |after| == |before|
    requires a < |k.order| && IsUsed(k, a) && (forall c | a < c < |k.order| :: !IsUsed(k, c))
    requires forall x: nat | Position(k, a) <= x < n2 :: ScaledAt(before, after, table, x, Height(k, a))
    requires forall x | 0 <= x < |before| && !(Position(k, a) <= x < n2) :: after[x] == before[x]
    ensures DrawnTo(k, start, after, table, n2, n2)
  {
    hide IsUsed, Position, Height, Factor, KnotsOk;
    forall x: nat | x < n2
      ensures ScaledByCurve(k, start, after, table, x)
    {
      if x < Position(k, a) {
        assert ScaledByCurve(k, start, before, table, x);
        var y :| OnCurve(k, x, y) && ScaledAt(start, before, table, x, y);
        assert ScaledAt(start, after, table, x, y);
      } else {
        assert OnTail(k, a, x, Height(k, a));
        assert ScaledAt(before, after, table, x, Height(k, a));
        assert ScaledAt(start, after, table, x, Height(k, a));
      }
    }
  }

  /** The number of heights of a curve, by its multiplier. */
  function Range(mult: nat): nat {
    if mult == 1 then 256 else if mult == 2 then 128 else if mult == 3 then 86 else 64
  }

  /** The number of bits of `n`. */
  function ILog(n: nat): nat {
    if n == 0 then 0 else 1 + ILog(n / 2)
  }

  /** The width in which the heights at the first two positions are read. */
  function HeightBits(mult: nat): nat {
    ILog(Range(mult)) - 1
  }

  /** The heights at the first two positions index the table, whatever is read. */
  lemma HeightFits(mult: nat, y: nat)
    requires 1 <= mult <= 4 && y < Pow2(HeightBits(mult))
    ensures y * mult < 256
  {
    hide ILog, HeightBits;
    LogOfRange(mult);
    assert Pow2(3) == 8;
    assert Pow2(6) == 64;
    var bits := HeightBits(mult);
    assert y < Pow2(bits) && (bits == 8 || bits == 7 || bits == 6);
  }

  lemma LogOfRange(mult: nat)
    requires 1 <= mult <= 4
    ensures HeightBits(mult) == if mult == 1 then 8 else if mult == 2 then 7 else 6
  {
    assert ILog(8) == 4 && ILog(10) == 4;
    assert ILog(64) == 7 && ILog(86) == 7;
    assert ILog(128) == 8 && ILog(256) == 9;
  }

  /** Draws the level end of the curve. */
  method DrawTail(target: array<real>, lx: nat, ly: nat, n2: nat, table: seq<real>)
    requires n2 <= target.Length && |table| == 256 && ly < 256
    modifies target
    ensures forall x: nat | lx <= x < n2 :: ScaledAt(old(target[..]), target[..], table, x, ly)
    ensures forall x | 0 <= x < target.Length && !(lx <= x < n2) :: target[x] == old(target[x])
  {
    var j := lx;
    while j < n2
      invariant lx <= j && (j <= n2 || j == lx)
      invariant forall x | lx <= x < j && x < n2 :: target[x] == old(target[x]) * table[ly]
      invariant forall x | 0 <= x < target.Length && !(lx <= x < j) :: target[x] == old(target[x])
    {
      target[j] := target[j] * table[ly];
      j := j + 1;
    }
  }

  /** Every one of the `n2` targets is scaled once, by the factor of the curve's height there. The level end indexes the
      table without a mask; its height is that of the second position, which the width it is read in keeps in the
      table. */
  method DoFloor(g: Floor1, finalY: seq<int>, n2: nat, target: array<real>, table: seq<real>, ghost k: Knots)
    requires g.Valid() && k == Knots(g.xlist, g.sortedOrder, finalY, g.multiplier)
    requires |finalY| >= |g.xlist| && 0 <= finalY[1] < Pow2(HeightBits(g.multiplier))
    requires n2 <= target.Length && |table| == 256
    modifies target
    ensures forall x: nat | x < n2 :: ScaledByCurve(k, old(target[..]), target[..], table, x)
    ensures forall x | n2 <= x < target.Length :: target[x] == old(target[x])
  {
    hide Factor, PredictPoint, OnCurve, ScaledByCurve, IsOrder, ScaledAt, KnotsOk, DrawnTo, IsUsed, Position, Height,
      StrictlyAscends;
    ghost var start := target[..];
    KnotsAreOk(g, k);
    var lx: nat, ly := 0, finalY[0] * g.multiplier;
    ghost var a: nat := 0;
    NothingDrawn(k, start, table, n2);
    KnotIs(k, 0);
    for q := 1 to |g.xlist|
      invariant IsLastUsed(k, a, q)
      invariant lx == Position(k, a) && ly == Height(k, a)
      invariant DrawnTo(k, start, target[..], table, lx, n2)
    {
      var j := g.sortedOrder[q];
      KnotIs(k, q);
      if finalY[j] >= 0 {
        var hx, hy := g.xlist[j], finalY[j] * g.multiplier;
        PositionsInOrder(k, a, q);
        ghost var before := target[..];
        if lx != hx {
          DrawLine(target, lx, ly, hx, hy, n2, table);
        }
        LineIsDrawn(k, start, before, target[..], table, a, q, n2);
        lx, ly := hx, hy;
        a := q;
      }
    }
    TailHeight(k, a);
    HeightFits(g.multiplier, finalY[1]);
    ghost var before := target[..];
    if lx < n2 {
      DrawTail(target, lx, ly, n2, table);
    }
    TailIsDrawn(k, start, before, target[..], table, a, n2);
    AllDrawn(k, start, target[..], table, n2);
  }

  /** Of the knots before `q`, the last in use is `a`. */
  ghost predicate IsLastUsed(k: Knots, a: nat, q: nat) {
    a < q && IsUsed(k, a) && forall c | a < c < q :: !IsUsed(k, c)
  }

  lemma KnotsAreOk(g: Floor1, k: Knots)
    requires g.Valid() && k == Knots(g.xlist, g.sortedOrder, k.finalY, g.multiplier) && |k.finalY| >= |g.xlist|
    ensures KnotsOk(k) && |k.order| == |k.xs| >= 2 && k.order[0] == 0 && k.order[|k.order| - 1] == 1
    ensures forall q | 0 <= q < |k.order| :: k.order[q] < |k.xs|
  {
    hide AreNeighbors;
    OrderInside(g.xlist, g.sortedOrder);
    FirstIsZero(g.xlist, g.sortedOrder);
    LastIsOne(g.xlist, g.sortedOrder);
  }

  lemma KnotIs(k: Knots, q: nat)
    requires KnotsOk(k) && q < |k.order| && k.order[q] < |k.xs| <= |k.finalY|
    ensures Position(k, q) == k.xs[k.order[q]] && Height(k, q) == k.finalY[k.order[q]] * k.mult
    ensures IsUsed(k, q) <==> q == 0 || k.finalY[k.order[q]] >= 0
    ensures Position(k, 0) == 0
  {
  }

  /** The last knot in use is the second of the list. */
  lemma TailHeight(k: Knots, a: nat)
    requires |k.order| >= 2 && k.order[|k.order| - 1] == 1 && |k.finalY| >= 2 && k.finalY[1] >= 0
    requires IsLastUsed(k, a, |k.order|)
    ensures a == |k.order| - 1 && 0 <= Height(k, a) == k.finalY[1] * k.mult
  {
    assert IsUsed(k, |k.order| - 1);
  }

  lemma NothingDrawn(k: Knots, start: seq<real>, table: seq<real>, n2: nat)
    requires |table| == 256
    ensures DrawnTo(k, start, start, table, 0, n2)
  {
  }

  lemma AllDrawn(k: Knots, start: seq<real>, after: seq<real>, table: seq<real>, n2: nat)
    requires |table| == 256 && n2 <= |start| && DrawnTo(k, start, after, table, n2, n2)
    ensures |after| == |start| && (forall x: nat | x < n2 :: ScaledByCurve(k, start, after, table, x))
    ensures forall x | n2 <= x < |start| :: after[x] == start[x]
  {
    hide ScaledByCurve;
  }

  lemma StrictPlaces(xs: seq<nat>, order: seq<nat>, a: nat, b: nat)
    requires StrictlyAscends(xs, order) && a < |order| && b < |order|
    ensures a < b ==> xs[order[a]] < xs[order[b]]
  {
  }

  /** The first position in order is the first of the list. */
  lemma FirstIsZero(xs: seq<nat>, order: seq<nat>)
    requires |xs| > 0 && xs[0] == 0 && IsOrder(order, |xs|) && StrictlyAscends(xs, order)
    ensures order[0] == 0
  {
    assert 0 in order;
    var a :| 0 <= a < |order| && order[a] == 0;
    StrictPlaces(xs, order, 0, a);
  }

  /** The last position in order is the second of the list, the largest. */
  lemma LastIsOne(xs: seq<nat>, order: seq<nat>)
    requires |xs| > 1 && (forall j | 0 <= j < |xs| :: xs[j] <= xs[1])
    requires IsOrder(order, |xs|) && StrictlyAscends(xs, order)
    ensures order[|order| - 1] == 1
  {
    assert 1 in order;
    var a :| 0 <= a < |order| && order[a] == 1;
    StrictPlaces(xs, order, a, |order| - 1);
  }
}

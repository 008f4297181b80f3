/** Dynamic time warping and its backtrace (`dtw_and_backtrace`), over exact reals with an infinite cost. */
module TimeWarp {

  datatype Cost = Infinite | Finite(value: real)

  predicate Less(a: Cost, b: Cost) {
    a.Finite? && (b.Infinite? || a.value < b.value)
  }

  function Plus(x: real, c: Cost): Cost {
    match c
    case Infinite => Infinite
    case Finite(v) => Finite(x + v)
  }

  /** A matrix of local costs, row by row. */
  type Matrix = seq<seq<real>>

  predicate IsMatrix(x: Matrix, n: nat, m: nat) {
    |x| == n && forall i | 0 <= i < n :: |x[i]| == m
  }

  function At(x: Matrix, i: nat, j: nat): real {
    if i < |x| && j < |x[i]| then x[i][j] else 0.0
  }

  // ---------------------------------------------------------------- The table

  /** The step chosen for the costs of the predecessors: 0 diagonal, 1 up, 2 left. */
  function Choice(c0: Cost, c1: Cost, c2: Cost): (t: nat) {
    if Less(c0, c1) && Less(c0, c2) then 0 else if Less(c1, c0) && Less(c1, c2) then 1 else 2
  }

  function Chosen(c0: Cost, c1: Cost, c2: Cost): Cost {
    var t := Choice(c0, c1, c2);
    if t == 0 then c0 else if t == 1 then c1 else c2
  }

  function Total(x: Matrix, i: nat, j: nat): Cost
    decreases i + j
  {
    if i == 0 && j == 0 then Finite(0.0)
    else if i == 0 || j == 0 then Infinite
    else Plus(At(x, i - 1, j - 1), Chosen(Total(x, i - 1, j - 1), Total(x, i - 1, j), Total(x, i, j - 1)))
  }

  function StepAt(x: Matrix, i: nat, j: nat): nat
    requires i > 0 && j > 0
  {
    Choice(Total(x, i - 1, j - 1), Total(x, i - 1, j), Total(x, i, j - 1))
  }

  lemma {:induction false} InsideIsFinite(x: Matrix, i: nat, j: nat)
    requires i > 0 && j > 0
    ensures Total(x, i, j).Finite?
    decreases i + j
  {
    if i > 1 || j > 1 {
      if i > 1 {
        InsideIsFinite(x, i - 1, j);
      }
      if j > 1 {
        InsideIsFinite(x, i, j - 1);
      }
      if i > 1 && j > 1 {
        InsideIsFinite(x, i - 1, j - 1);
      }
    }
  }

  /** The steps never lead to the border before the origin. */
  lemma StepStaysInside(x: Matrix, i: nat, j: nat)
    requires i > 0 && j > 0
    ensures i == j == 1 ==> StepAt(x, i, j) == 0
    ensures j == 1 && i > 1 ==> StepAt(x, i, j) == 1
    ensures i == 1 && j > 1 ==> StepAt(x, i, j) == 2
  {
    if j == 1 && i > 1 {
      InsideIsFinite(x, i - 1, 1);
    }
    if i == 1 && j > 1 {
      InsideIsFinite(x, 1, j - 1);
    }
  }

  // ---------------------------------------------------------------- Warping paths

  type Path = seq<(int, int)>

  predicate IsStep(a: (int, int), b: (int, int)) {
    (b.0 == a.0 + 1 && b.1 == a.1 + 1) || (b.0 == a.0 + 1 && b.1 == a.1) || (b.0 == a.0 && b.1 == a.1 + 1)
  }

  /** A path from (0, 0) to (i - 1, j - 1) by unit steps right, down or diagonal. */
  ghost predicate IsWarp(p: Path, i: nat, j: nat) {
    && |p| > 0 && p[0] == (0, 0) && p[|p| - 1] == (i - 1, j - 1)
    && forall k | 0 < k < |p| :: IsStep(p[k - 1], p[k])
  }

  function PathCost(x: Matrix, p: Path): real {
    if p == [] then 0.0
    else
      var c := p[|p| - 1];
      PathCost(x, p[..|p| - 1]) + if c.0 >= 0 && c.1 >= 0 then At(x, c.0, c.1) else 0.0
  }

  /** The path that the steps of the table lead back on. */
  function BackPath(x: Matrix, i: nat, j: nat): Path
    requires i > 0 && j > 0
    decreases i + j
  {
    StepStaysInside(x, i, j);
    var t := StepAt(x, i, j);
    if i == 1 && j == 1 then [(0, 0)]
    else if t == 0 then BackPath(x, i - 1, j - 1) + [(i - 1, j - 1)]
    else if t == 1 then BackPath(x, i - 1, j) + [(i - 1, j - 1)]
    else BackPath(x, i, j - 1) + [(i - 1, j - 1)]
  }

  lemma WarpExtends(p: Path, i0: nat, j0: nat, i: nat, j: nat)
    requires IsWarp(p, i0, j0) && IsStep((i0 - 1, j0 - 1), (i - 1, j - 1))
    ensures IsWarp(p + [(i - 1, j - 1)], i, j)
  {
  }

  lemma CostExtends(x: Matrix, p: Path, i: nat, j: nat)
    requires i > 0 && j > 0
    ensures PathCost(x, p + [(i - 1, j - 1)]) == PathCost(x, p) + At(x, i - 1, j - 1)
  {
    assert (p + [(i - 1, j - 1)])[..|p|] == p;
  }

  /** The predecessor that the table chooses. */
  function Before(x: Matrix, i: nat, j: nat): (nat, nat)
    requires i > 0 && j > 0 && i + j > 2
  {
    StepStaysInside(x, i, j);
    var t := StepAt(x, i, j);
    if t == 0 then (i - 1, j - 1) else if t == 1 then (i - 1, j) else (i, j - 1)
  }

  lemma BeforeIsInside(x: Matrix, i: nat, j: nat)
    requires i > 0 && j > 0 && i + j > 2
    ensures var b := Before(x, i, j);
      && b.0 > 0 && b.1 > 0 && b.0 + b.1 < i + j && i + j <= b.0 + b.1 + 2
      && IsStep((b.0 - 1, b.1 - 1), (i - 1, j - 1))
      && BackPath(x, i, j) == BackPath(x, b.0, b.1) + [(i - 1, j - 1)]
      && Total(x, i, j) == Plus(At(x, i - 1, j - 1), Total(x, b.0, b.1))
  {
    StepStaysInside(x, i, j);
  }

  /** The backtrace is a warping path whose cost is the table's, of at most i + j - 1 steps. */
  lemma {:induction false} BackPathIsWarp(x: Matrix, i: nat, j: nat)
    requires i > 0 && j > 0
    ensures IsWarp(BackPath(x, i, j), i, j) && |BackPath(x, i, j)| <= i + j - 1
    ensures Total(x, i, j) == Finite(PathCost(x, BackPath(x, i, j)))
    decreases i + j
  {
    hide StepAt, Before, At;
    if i + j > 2 {
      BeforeIsInside(x, i, j);
      var b := Before(x, i, j);
      BackPathIsWarp(x, b.0, b.1);
      WarpExtends(BackPath(x, b.0, b.1), b.0, b.1, i, j);
      CostExtends(x, BackPath(x, b.0, b.1), i, j);
    } else {
      FirstCell(x);
    }
  }

  lemma FirstCell(x: Matrix)
    ensures BackPath(x, 1, 1) == [(0, 0)]
    ensures Total(x, 1, 1) == Finite(At(x, 0, 0)) && PathCost(x, [(0, 0)]) == At(x, 0, 0)
  {
    assert PathCost(x, [(0, 0)][..0]) == 0.0;
  }

  // ---------------------------------------------------------------- Least cost

  /** The first two predecessors tie below the third, which is the one chosen. */
  predicate Tie(x: Matrix, i: nat, j: nat)
    requires i > 0 && j > 0
  {
    Total(x, i - 1, j - 1) == Total(x, i - 1, j) && Less(Total(x, i - 1, j), Total(x, i, j - 1))
  }

  ghost predicate NoTies(x: Matrix, n: nat, m: nat) {
    forall i, j | 0 < i <= n && 0 < j <= m :: !Tie(x, i, j)
  }

  predicate AtMost(c: Cost, v: real) {
    c.Finite? && c.value <= v
  }

  /** No warping path costs less than the table says. */
  ghost predicate AllLeast(x: Matrix, n: nat, m: nat) {
    forall i, j, q | 0 < i <= n && 0 < j <= m && IsWarp(q, i, j) :: AtMost(Total(x, i, j), PathCost(x, q))
  }

  lemma ChosenIsLeast(c0: Cost, c1: Cost, c2: Cost)
    requires !(c0 == c1 && Less(c1, c2))
    ensures !Less(c0, Chosen(c0, c1, c2)) && !Less(c1, Chosen(c0, c1, c2)) && !Less(c2, Chosen(c0, c1, c2))
  {
  }

  /** A warping path is a shorter one and a step. */
  lemma {:induction false} WarpEnds(q: Path, i: nat, j: nat)
    requires IsWarp(q, i, j)
    ensures i > 0 && j > 0
    ensures |q| == 1 ==> i == j == 1
    ensures |q| > 1 ==>
      var c := q[|q| - 2];
      && c.0 >= 0 && c.1 >= 0 && IsStep(c, (i - 1, j - 1)) && IsWarp(q[..|q| - 1], c.0 + 1, c.1 + 1)
    decreases |q|
  {
    if |q| > 1 {
      var p := q[..|q| - 1];
      assert p[|p| - 1] == q[|q| - 2];
      NotBeforeOrigin(q, |q| - 2);
    }
  }

  lemma {:induction false} NotBeforeOrigin(q: Path, k: nat)
    requires |q| > 0 && q[0] == (0, 0) && k < |q| && forall i | 0 < i < |q| :: IsStep(q[i - 1], q[i])
    ensures q[k].0 >= 0 && q[k].1 >= 0
  {
    if k > 0 {
      NotBeforeOrigin(q, k - 1);
      assert IsStep(q[k - 1], q[k]);
    }
  }

  /** Without ties the table's costs are least. */
  lemma {:induction false} NoPathIsBetter(x: Matrix, n: nat, m: nat, i: nat, j: nat, q: Path)
    requires NoTies(x, n, m) && 0 < i <= n && 0 < j <= m && IsWarp(q, i, j)
    ensures AtMost(Total(x, i, j), PathCost(x, q))
    decreases |q|
  {
    hide At, IsWarp;
    WarpEnds(q, i, j);
    InsideIsFinite(x, i, j);
    WarpLast(q, i, j);
    var p := q[..|q| - 1];
    CostExtends(x, p, i, j);
    if |q| == 1 {
      FirstCell(x);
      assert p == [];
    } else {
      var c := q[|q| - 2];
      NoPathIsBetter(x, n, m, c.0 + 1, c.1 + 1, p);
      assert !Tie(x, i, j);
      ChosenIsLeast(Total(x, i - 1, j - 1), Total(x, i - 1, j), Total(x, i, j - 1));
    }
  }

  lemma WarpLast(q: Path, i: nat, j: nat)
    requires IsWarp(q, i, j)
    ensures |q| > 0 && q == q[..|q| - 1] + [(i - 1, j - 1)]
  {
  }

  /** A tie makes a diagonal step better than the step chosen. */
  lemma TieIsWorse(x: Matrix, i: nat, j: nat) returns (q: Path)
    requires i > 0 && j > 0 && Tie(x, i, j)
    ensures IsWarp(q, i, j) && !AtMost(Total(x, i, j), PathCost(x, q))
  {
    hide At;
    TieIsInside(x, i, j);
    BackPathIsWarp(x, i - 1, j - 1);
    var p := BackPath(x, i - 1, j - 1);
    q := p + [(i - 1, j - 1)];
    WarpExtends(p, i - 1, j - 1, i, j);
    CostExtends(x, p, i, j);
  }

  lemma TieIsInside(x: Matrix, i: nat, j: nat)
    requires i > 0 && j > 0 && Tie(x, i, j)
    ensures i > 1 && j > 1
  {
  }

  /** The costs of the table are the least ones exactly when no cell has such a tie. */
  lemma LeastIffNoTies(x: Matrix, n: nat, m: nat)
    ensures AllLeast(x, n, m) <==> NoTies(x, n, m)
  {
    hide IsWarp, Tie, Total, PathCost, AtMost;
    if NoTies(x, n, m) {
      forall i: nat, j: nat, q | 0 < i <= n && 0 < j <= m && IsWarp(q, i, j)
        ensures AtMost(Total(x, i, j), PathCost(x, q))
      {
        NoPathIsBetter(x, n, m, i, j, q);
      }
    }
    if AllLeast(x, n, m) {
      forall i: nat, j: nat | 0 < i <= n && 0 < j <= m
        ensures !Tie(x, i, j)
      {
        if Tie(x, i, j) {
          var q := TieIsWorse(x, i, j);
        }
      }
    }
  }

  /** No warping path to (i - 1, j - 1) costs less than the table says. */
  ghost predicate IsLeast(x: Matrix, i: nat, j: nat) {
    forall q | IsWarp(q, i, j) :: AtMost(Total(x, i, j), PathCost(x, q))
  }

  /** The path enters a cell where there is a tie from the left, if at all. */
  ghost predicate EntersTiesFromLeft(x: Matrix, q: Path) {
    forall k | 0 < k < |q| :: EntersFromLeft(x, q, k)
  }

  predicate EntersFromLeft(x: Matrix, q: Path, k: nat)
    requires 0 < k < |q|
  {
    q[k].0 >= 0 && q[k].1 >= 0 && Tie(x, q[k].0 + 1, q[k].1 + 1) ==> q[k - 1] == (q[k].0, q[k].1 - 1)
  }

  /** A least warping path that enters ties from the left, if there is one. */
  ghost predicate IsOpenLeast(x: Matrix, q: Path, n: nat, m: nat) {
    && IsWarp(q, n, m) && EntersTiesFromLeft(x, q)
    && forall p | IsWarp(p, n, m) :: PathCost(x, q) <= PathCost(x, p)
  }

  /** Along such a path, no cost of the table is more than that of the path. */
  lemma {:induction false} OpenPathBounds(x: Matrix, i: nat, j: nat, q: Path)
    requires IsWarp(q, i, j) && EntersTiesFromLeft(x, q)
    ensures AtMost(Total(x, i, j), PathCost(x, q))
    decreases |q|
  {
    hide At, IsWarp, Tie;
    WarpEnds(q, i, j);
    InsideIsFinite(x, i, j);
    WarpLast(q, i, j);
    var p := q[..|q| - 1];
    CostExtends(x, p, i, j);
    if |q| == 1 {
      FirstCell(x);
      assert p == [];
    } else {
      var c := q[|q| - 2];
      forall k | 0 < k < |p|
        ensures EntersFromLeft(x, p, k)
      {
        assert EntersFromLeft(x, q, k);
      }
      OpenPathBounds(x, c.0 + 1, c.1 + 1, p);
      assert EntersFromLeft(x, q, |q| - 1);
      StepBounds(x, i, j, c.0 + 1, c.1 + 1);
    }
  }

  /** A step that a tie does not forbid is as good as the step chosen, or worse. */
  lemma StepBounds(x: Matrix, i: nat, j: nat, i0: nat, j0: nat)
    requires i0 > 0 && j0 > 0 && IsStep((i0 - 1, j0 - 1), (i - 1, j - 1)) && (Tie(x, i, j) ==> i0 == i && j0 == j - 1)
    ensures !Less(Plus(At(x, i - 1, j - 1), Total(x, i0, j0)), Total(x, i, j))
  {
    hide At, Total;
    var c0, c1, c2 := Total(x, i - 1, j - 1), Total(x, i - 1, j), Total(x, i, j - 1);
    TotalIs(x, i, j);
    if Tie(x, i, j) {
      assert Chosen(c0, c1, c2) == c2;
    } else {
      ChosenIsLeast(c0, c1, c2);
    }
  }

  lemma TotalIs(x: Matrix, i: nat, j: nat)
    requires i > 0 && j > 0
    ensures Total(x, i, j) == Plus(At(x, i - 1, j - 1),
      Chosen(Total(x, i - 1, j - 1), Total(x, i - 1, j), Total(x, i, j - 1)))
  {
    hide At, Chosen, Plus;
  }

  /** The path traced back enters ties from the left. */
  lemma {:induction false} BackPathIsOpen(x: Matrix, i: nat, j: nat)
    requires i > 0 && j > 0
    ensures EntersTiesFromLeft(x, BackPath(x, i, j))
    decreases i + j
  {
    hide At, StepAt, Before, Tie, PathCost, Total, EntersTiesFromLeft, BackPath;
    if i + j > 2 {
      BeforeIsInside(x, i, j);
      var b := Before(x, i, j);
      BackPathIsOpen(x, b.0, b.1);
      BackPathIsWarp(x, b.0, b.1);
      TieGoesLeft(x, i, j);
      OpenExtends(x, BackPath(x, b.0, b.1), i, j);
    } else {
      OneCellIsOpen(x);
      FirstCell(x);
    }
  }

  lemma OneCellIsOpen(x: Matrix)
    ensures EntersTiesFromLeft(x, [(0, 0)])
  {
  }

  lemma OpenExtends(x: Matrix, p: Path, i: nat, j: nat)
    requires i > 0 && j > 0 && |p| > 0 && EntersTiesFromLeft(x, p) && (Tie(x, i, j) ==> p[|p| - 1] == (i - 1, j - 2))
    ensures EntersTiesFromLeft(x, p + [(i - 1, j - 1)])
  {
    hide Tie;
    var q := p + [(i - 1, j - 1)];
    forall k | 0 < k < |q|
      ensures EntersFromLeft(x, q, k)
    {
      if k < |p| {
        assert EntersFromLeft(x, p, k);
      }
    }
  }

  lemma TieGoesLeft(x: Matrix, i: nat, j: nat)
    requires i > 0 && j > 0 && i + j > 2
    ensures Tie(x, i, j) ==> Before(x, i, j) == (i, j - 1)
  {
  }

  /** The cost of the path that is returned is least exactly if some least warping path enters ties from the left. */
  lemma ReturnedIsLeastIff(x: Matrix, n: nat, m: nat)
    requires n > 0 && m > 0
    ensures IsLeast(x, n, m) <==> exists q :: IsOpenLeast(x, q, n, m)
  {
    hide IsWarp, EntersTiesFromLeft, PathCost, Total, BackPath;
    var back := BackPath(x, n, m);
    BackPathIsWarp(x, n, m);
    if IsLeast(x, n, m) {
      BackPathIsOpen(x, n, m);
      assert IsOpenLeast(x, back, n, m);
    }
    if q :| IsOpenLeast(x, q, n, m) {
      OpenPathBounds(x, n, m, q);
    }
  }

  const TIED: Matrix := [[0.0, 0.0], [1.0, 0.0]]

  /** A tie can cost: here the diagonal path is free, but the table's path is not. */
  lemma TieExample()
    ensures Total(TIED, 2, 2) == Finite(1.0)
    ensures IsWarp([(0, 0), (1, 1)], 2, 2) && PathCost(TIED, [(0, 0), (1, 1)]) == 0.0
  {
    hide Total;
    BorderCells(TIED);
    Cell(TIED, 1, 1);
    Cell(TIED, 1, 2);
    Cell(TIED, 2, 1);
    Cell(TIED, 2, 2);
    assert [(0, 0), (1, 1)][..1] == [(0, 0)];
    assert [(0, 0)][..0] == [];
  }

  lemma BorderCells(x: Matrix)
    ensures Total(x, 0, 0) == Finite(0.0) &&
      Total(x, 0, 1) == Total(x, 1, 0) == Total(x, 0, 2) == Total(x, 2, 0) == Infinite
  {
  }

  lemma Cell(x: Matrix, i: nat, j: nat)
    requires i > 0 && j > 0
    ensures Total(x, i, j)
         == Plus(At(x, i - 1, j - 1), Chosen(Total(x, i - 1, j - 1), Total(x, i - 1, j), Total(x, i, j - 1)))
  {
  }

  // ---------------------------------------------------------------- The method

  /** The cells that the loops have reached, with rows inside columns. */
  predicate Reached(a: nat, b: nat, i: nat, j: nat) {
    b < j || (b == j && a < i) || a == 0 || b == 0
  }

  /** The tables hold the costs and the steps of the cells reached. */
  ghost predicate FilledTo(x: Matrix, n: nat, m: nat, cost: array2<Cost>, trace: array2<int>, i: nat, j: nat)
    reads cost, trace
  {
    && cost.Length0 == trace.Length0 == n + 1 && cost.Length1 == trace.Length1 == m + 1
    && (forall a, b | 0 <= a <= n && 0 <= b <= m && Reached(a, b, i, j) :: cost[a, b] == Total(x, a, b))
    && (forall a, b | 0 < a <= n && 0 < b <= m && Reached(a, b, i, j) :: trace[a, b] == StepAt(x, a, b))
  }

  method FillCell(x: Matrix, n: nat, m: nat, cost: array2<Cost>, trace: array2<int>, i: nat, j: nat)
    requires IsMatrix(x, n, m) && 0 < i <= n && 0 < j <= m && FilledTo(x, n, m, cost, trace, i, j)
    modifies cost, trace
    ensures FilledTo(x, n, m, cost, trace, i + 1, j)
  {
    hide Total, StepAt;
    var c0, c1, c2 := cost[i - 1, j - 1], cost[i - 1, j], cost[i, j - 1];
    var c, t;
    if Less(c0, c1) && Less(c0, c2) {
      c, t := c0, 0;
    } else if Less(c1, c0) && Less(c1, c2) {
      c, t := c1, 1;
    } else {
      c, t := c2, 2;
    }
    Cell(x, i, j);
    StepIs(x, i, j);
    cost[i, j] := Plus(x[i - 1][j - 1], c);
    trace[i, j] := t;
  }

  lemma StepIs(x: Matrix, i: nat, j: nat)
    requires i > 0 && j > 0
    ensures StepAt(x, i, j) == Choice(Total(x, i - 1, j - 1), Total(x, i - 1, j), Total(x, i, j - 1))
  {
  }

  method FillTable(x: Matrix, n: nat, m: nat, cost: array2<Cost>, trace: array2<int>)
    requires IsMatrix(x, n, m) && FilledTo(x, n, m, cost, trace, 1, 1)
    modifies cost, trace
    ensures FilledTo(x, n, m, cost, trace, 1, m + 1)
  {
    var j := 1;
    while j < m + 1
      invariant 1 <= j <= m + 1 && FilledTo(x, n, m, cost, trace, 1, j)
    {
      var i := 1;
      while i < n + 1
        invariant 1 <= i <= n + 1 && FilledTo(x, n, m, cost, trace, i, j)
      {
        FillCell(x, n, m, cost, trace, i, j);
        i := i + 1;
      }
      NextColumn(x, n, m, cost, trace, j);
      j := j + 1;
    }
  }

  lemma NextColumn(x: Matrix, n: nat, m: nat, cost: array2<Cost>, trace: array2<int>, j: nat)
    requires FilledTo(x, n, m, cost, trace, n + 1, j)
    ensures FilledTo(x, n, m, cost, trace, 1, j + 1)
  {
    hide Total, StepAt;
  }

  /** The path that is still to be traced back from a cell. */
  function Ahead(x: Matrix, i: nat, j: nat): Path {
    if i > 0 && j > 0 then BackPath(x, i, j) else []
  }

  /** Follows the steps back from the last cell; the rows of `bt` are filled from the end. */
  method Backtrace(x: Matrix, n: nat, m: nat, trace: array2<int>, bt: array<(int, int)>) returns (btRowIdx: int)
    requires n > 0 && m > 0 && trace.Length0 == n + 1 && trace.Length1 == m + 1
    requires forall a, b | 0 < a <= n && 0 < b <= m :: trace[a, b] == StepAt(x, a, b)
    requires bt.Length == n + m - 1
    modifies bt
    ensures -1 <= btRowIdx < bt.Length && bt[btRowIdx + 1..] == BackPath(x, n, m)
  {
    hide StepAt, BackPath, Total;
    btRowIdx := bt.Length - 1;
    var i, j := n, m;
    while i > 0 || j > 0
      invariant 0 <= i <= n && 0 <= j <= m && (i > 0 <==> j > 0)
      invariant -1 <= btRowIdx < bt.Length && i + j <= btRowIdx + 2
      invariant Ahead(x, i, j) + bt[btRowIdx + 1..] == BackPath(x, n, m)
      decreases i + j
    {
      AheadStep(x, i, j, bt[btRowIdx + 1..]);
      ghost var rows := bt[btRowIdx + 1..];
      bt[btRowIdx] := (i - 1, j - 1);
      assert bt[btRowIdx..] == [(i - 1, j - 1)] + rows;
      btRowIdx := btRowIdx - 1;
      var t := trace[i, j];
      if t == 0 {
        i := i - 1;
        j := j - 1;
      } else if t == 1 {
        i := i - 1;
      } else if t == 2 {
        j := j - 1;
      } else {
        assert false;
      }
    }
  }

  /** Where a step leads, and what it leaves to be traced. */
  function Stepped(i: nat, j: nat, t: nat): (nat, nat)
    requires i > 0 && j > 0
  {
    if t == 0 then (i - 1, j - 1) else if t == 1 then (i - 1, j) else (i, j - 1)
  }

  lemma AheadStep(x: Matrix, i: nat, j: nat, rows: Path)
    requires i > 0 && j > 0
    ensures StepAt(x, i, j) <= 2
    ensures var b := Stepped(i, j, StepAt(x, i, j));
      && (b.0 > 0 <==> b.1 > 0)
      && Ahead(x, b.0, b.1) + ([(i - 1, j - 1)] + rows) == Ahead(x, i, j) + rows
  {
    hide Total;
    StepStaysInside(x, i, j);
    var b := Stepped(i, j, StepAt(x, i, j));
    assert Ahead(x, i, j) == Ahead(x, b.0, b.1) + [(i - 1, j - 1)];
  }

  /** Fills the table and traces the path of its last cell back. */
  method DtwAndBacktrace(x: Matrix, n: nat, m: nat) returns (r: Path)
    requires n > 0 && m > 0 && IsMatrix(x, n, m)
    ensures r == BackPath(x, n, m)
    ensures IsWarp(r, n, m) && |r| <= n + m - 1 && Total(x, n, m) == Finite(PathCost(x, r))
  {
    hide StepAt, BackPath, IsWarp, PathCost;
    var cost := new Cost[n + 1, m + 1]((_, _) => Infinite);
    var trace := new int[n + 1, m + 1]((_, _) => -1);
    cost[0, 0] := Finite(0.0);
    assert FilledTo(x, n, m, cost, trace, 1, 1);
    FillTable(x, n, m, cost, trace);
    for i := 0 to m + 1
      invariant forall a, b | 0 < a <= n && 0 < b <= m :: trace[a, b] == StepAt(x, a, b)
    {
      trace[0, i] := 2;
    }
    for i := 0 to n + 1
      invariant forall a, b | 0 < a <= n && 0 < b <= m :: trace[a, b] == StepAt(x, a, b)
    {
      trace[i, 0] := 1;
    }
    var bt := new (int, int)[n + m - 1](_ => (0, 0));
    var btRowIdx := Backtrace(x, n, m, trace, bt);
    BackPathIsWarp(x, n, m);
    r := bt[btRowIdx + 1..];
  }
}

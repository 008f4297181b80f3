/** The similarity of two strings (`similarity`): the table of two columns holds edit distances. */
module EditDistance {

  // ---------------------------------------------------------------- Edits

  /** `b` is `a` with one character inserted, deleted or replaced. */
  predicate IsEdit(a: string, b: string, p: string, x: string, y: string, q: string) {
    a == p + x + q && b == p + y + q && |x| <= 1 && |y| <= 1 && |x| + |y| > 0
  }

  ghost predicate OneEdit(a: string, b: string) {
    exists p, x, y, q :: IsEdit(a, b, p, x, y, q)
  }

  /** `chain` turns `a` into `b`, one edit at a time. */
  ghost predicate Turns(chain: seq<string>, a: string, b: string) {
    |chain| > 0 && chain[0] == a && chain[|chain| - 1] == b
    && forall i | 0 < i < |chain| :: OneEdit(chain[i - 1], chain[i])
  }

  // ---------------------------------------------------------------- The recurrence

  function Min(a: nat, b: nat): nat {
    if b < a then b else a
  }

  function Init(s: string): string
    requires s != []
  {
    s[..|s| - 1]
  }

  function Last(s: string): char
    requires s != []
  {
    s[|s| - 1]
  }

  function Distance(a: string, b: string): nat
    decreases |a| + |b|
  {
    if a == [] then |b|
    else if b == [] then |a|
    else
      Min(Min(1 + Distance(a, Init(b)), 1 + Distance(Init(a), b)),
          Distance(Init(a), Init(b)) + if Last(a) == Last(b) then 0 else 1)
  }

  // ---------------------------------------------------------------- No fewer edits suffice

  lemma {:induction false} EditAtEnd(p: string, x: string, y: string, b: string)
    requires |x| <= 1 && |y| <= 1
    ensures Distance(p + x, b) <= Distance(p + y, b) + 1
    decreases |b|
  {
    if b != [] {
      EditAtEnd(p, x, y, Init(b));
      EndSteps(p, x, b);
      EndCases(p, y, b);
    }
  }

  /** What one more character at the end can cost. */
  lemma EndSteps(p: string, x: string, b: string)
    requires |x| <= 1 && b != []
    ensures Distance(p + x, b) <= Distance(p + x, Init(b)) + 1
    ensures Distance(p + x, b) <= Distance(p, b) + 1
    ensures Distance(p + x, b) <= Distance(p, Init(b)) + 1
  {
    if x == [] {
      assert p + x == p;
      DropLast(p, b);
    } else {
      assert Init(p + x) == p;
      DropLast(p + x, b);
    }
  }

  lemma {:induction false} DropLast(a: string, b: string)
    requires b != []
    ensures Distance(a, b) <= Distance(a, Init(b)) + 1
  {
  }

  lemma EndCases(p: string, y: string, b: string)
    requires |y| <= 1 && b != []
    ensures Distance(p + y, b) >= Distance(p, b) || Distance(p + y, b) >= Distance(p, Init(b))
         || Distance(p + y, b) == Distance(p + y, Init(b)) + 1
  {
    if y == [] {
      assert p + y == p;
    } else {
      assert Init(p + y) == p;
    }
  }

  lemma {:induction false} EditInside(p: string, x: string, y: string, q: string, b: string)
    requires |x| <= 1 && |y| <= 1
    ensures Distance(p + x + q, b) <= Distance(p + y + q, b) + 1
    decreases |q| + |b|
  {
    if q == [] {
      assert p + x + q == p + x && p + y + q == p + y;
      EditAtEnd(p, x, y, b);
    } else if b != [] {
      var r, c, d := Init(q), p + x + q, p + y + q;
      assert Init(c) == p + x + r && Init(d) == p + y + r && Last(c) == Last(d) == Last(q);
      EditInside(p, x, y, r, b);
      EditInside(p, x, y, q, Init(b));
      EditInside(p, x, y, r, Init(b));
    }
  }

  /** The distance is a lower bound for the number of edits. */
  lemma {:induction false} NoFewerEdits(chain: seq<string>, a: string, b: string)
    requires Turns(chain, a, b)
    ensures Distance(a, b) <= |chain| - 1
    decreases |chain|
  {
    if |chain| == 1 {
      NoDistance(a);
    } else {
      var next := chain[1];
      assert OneEdit(chain[0], chain[1]);
      var p, x, y, q :| IsEdit(a, next, p, x, y, q);
      EditInside(p, x, y, q, b);
      assert Turns(chain[1..], next, b) by {
        forall i | 0 < i < |chain| - 1
          ensures OneEdit(chain[1..][i - 1], chain[1..][i])
        {
          assert OneEdit(chain[i], chain[i + 1]);
        }
      }
      NoFewerEdits(chain[1..], next, b);
    }
  }

  lemma {:induction false} NoDistance(a: string)
    ensures Distance(a, a) == 0
  {
    if a != [] {
      NoDistance(Init(a));
    }
  }

  // ---------------------------------------------------------------- That many edits do

  lemma TurnsThenEdit(chain: seq<string>, a: string, b: string, c: string)
    requires Turns(chain, a, b) && OneEdit(b, c)
    ensures Turns(chain + [c], a, c)
  {
    hide OneEdit;
  }

  lemma EditThenTurns(chain: seq<string>, a: string, b: string, c: string)
    requires OneEdit(a, b) && Turns(chain, b, c)
    ensures Turns([a] + chain, a, c)
  {
    hide OneEdit;
    forall i | 0 < i < |chain| + 1
      ensures OneEdit(([a] + chain)[i - 1], ([a] + chain)[i])
    {
      if i > 1 {
        assert OneEdit(chain[i - 2], chain[i - 1]);
      }
    }
  }

  function Appended(chain: seq<string>, z: char): (r: seq<string>)
    ensures |r| == |chain|
  {
    seq(|chain|, i requires 0 <= i < |chain| => chain[i] + [z])
  }

  lemma EditAppended(a: string, b: string, z: char)
    requires OneEdit(a, b)
    ensures OneEdit(a + [z], b + [z])
  {
    var p, x, y, q :| IsEdit(a, b, p, x, y, q);
    assert IsEdit(a + [z], b + [z], p, x, y, q + [z]);
  }

  lemma TurnsAppended(chain: seq<string>, a: string, b: string, z: char)
    requires Turns(chain, a, b)
    ensures Turns(Appended(chain, z), a + [z], b + [z])
  {
    hide OneEdit;
    forall i | 0 < i < |chain|
      ensures OneEdit(Appended(chain, z)[i - 1], Appended(chain, z)[i])
    {
      EditAppended(chain[i - 1], chain[i], z);
    }
  }

  lemma EditLast(a: string, x: string, y: string)
    requires |x| <= 1 && |y| <= 1 && |x| + |y| > 0
    ensures OneEdit(a + x, a + y)
  {
    assert IsEdit(a + x, a + y, a, x, y, []);
  }

  lemma LastApart(a: string)
    requires a != []
    ensures a == Init(a) + [Last(a)] && Init(a) + [] == Init(a)
  {
  }

  /** Some chain of that many edits turns one string into the other. */
  lemma {:induction false} ThatManyEdits(a: string, b: string) returns (chain: seq<string>)
    ensures Turns(chain, a, b) && |chain| == Distance(a, b) + 1
    decreases |a| + |b|
  {
    hide Turns, OneEdit;
    if a == [] && b == [] {
      chain := [a];
      NoEdits(a);
    } else if a == [] || (b != [] && Distance(a, b) == 1 + Distance(a, Init(b))) {
      chain := ThatManyEdits(a, Init(b));
      LastApart(b);
      EditLast(Init(b), [], [Last(b)]);
      TurnsThenEdit(chain, a, Init(b), b);
      chain := chain + [b];
    } else if b == [] || Distance(a, b) == 1 + Distance(Init(a), b) {
      chain := ThatManyEdits(Init(a), b);
      LastApart(a);
      EditLast(Init(a), [Last(a)], []);
      EditThenTurns(chain, a, Init(a), b);
      chain := [a] + chain;
    } else {
      chain := ThatManyEdits(Init(a), Init(b));
      TurnsAppended(chain, Init(a), Init(b), Last(a));
      chain := Appended(chain, Last(a));
      LastApart(a);
      LastApart(b);
      if Last(a) != Last(b) {
        EditLast(Init(b), [Last(a)], [Last(b)]);
        TurnsThenEdit(chain, a, Init(b) + [Last(a)], b);
        chain := chain + [b];
      }
    }
  }

  lemma NoEdits(a: string)
    ensures Turns([a], a, a)
  {
  }

  /** The recurrence computes the least number of single-character edits. */
  lemma DistanceIsLeast(a: string, b: string)
    ensures exists chain :: Turns(chain, a, b) && |chain| == Distance(a, b) + 1
    ensures forall chain | Turns(chain, a, b) :: Distance(a, b) <= |chain| - 1
  {
    hide Min, Init, Last;
    hide Turns, Distance;
    var least := ThatManyEdits(a, b);
    forall chain | Turns(chain, a, b)
      ensures Distance(a, b) <= |chain| - 1
    {
      NoFewerEdits(chain, a, b);
    }
  }

  lemma {:induction false} AtMostLonger(a: string, b: string)
    ensures Distance(a, b) <= if |a| < |b| then |b| else |a|
    decreases |a| + |b|
  {
    if a != [] && b != [] {
      AtMostLonger(Init(a), Init(b));
    }
  }

  // ---------------------------------------------------------------- Two columns

  /** A column of the table: the distances from `a` to the prefixes of `b`. */
  predicate IsColumn(col: seq<int>, a: string, b: string, n: nat) {
    n <= |col| && n <= |b| + 1 && forall j | 0 <= j < n :: col[j] == Distance(a, b[..j])
  }

  lemma FirstColumn(col: seq<int>, b: string)
    requires |col| == |b| + 1 && forall j | 0 <= j <= |b| :: col[j] == j
    ensures IsColumn(col, [], b, |b| + 1)
  {
  }

  /** The next distance of a column, from its left and upper neighbours; the first column is computed twice. */
  lemma NextDistance(s0: string, s1: string, i: nat, j: nat)
    requires i <= |s0| && 0 < j <= |s1|
    ensures var before := s0[..if i == 0 then 0 else i - 1];
      Distance(s0[..i], s1[..j]) ==
      Min(Min(1 + Distance(s0[..i], s1[..j - 1]), 1 + Distance(before, s1[..j])),
          Distance(before, s1[..j - 1]) + if i > 0 && s0[i - 1] == s1[j - 1] then 0 else 1)
  {
    hide Distance;
    var a, b := s0[..i], s1[..j];
    assert Init(b) == s1[..j - 1];
    if i > 0 {
      assert Init(a) == s0[..i - 1];
      DistanceIs(a, b);
    } else {
      FromNothing(b);
      FromNothing(Init(b));
    }
  }

  lemma DistanceIs(a: string, b: string)
    requires a != [] && b != []
    ensures Distance(a, b) == Min(Min(1 + Distance(a, Init(b)), 1 + Distance(Init(a), b)),
                                  Distance(Init(a), Init(b)) + if Last(a) == Last(b) then 0 else 1)
  {
    hide Min, Init, Last;
  }

  lemma FromNothing(b: string)
    ensures Distance([], b) == |b|
  {
  }

  datatype Score = NotANumber | Score(value: real)

  method ComputeColumn(s0: string, s1: string, i: nat, col: array<int>, prevCol: array<int>)
    requires i <= |s0| && col != prevCol && col.Length == prevCol.Length == |s1| + 1
    requires IsColumn(prevCol[..], s0[..if i == 0 then 0 else i - 1], s1, |s1| + 1)
    modifies col
    ensures IsColumn(col[..], s0[..i], s1, |s1| + 1)
  {
    hide Distance;
    col[0] := i;
    FirstDistance(s0[..i], s1);
    ghost var prev := prevCol[..];
    for j := 1 to |s1| + 1
      invariant prevCol[..] == prev && IsColumn(col[..], s0[..i], s1, j)
    {
      NextDistance(s0, s1, i, j);
      ghost var before := col[..];
      var c := if i > 0 && s0[i - 1] == s1[j - 1] then 0 else 1;
      assert prev[j] == prevCol[j] && prev[j - 1] == prevCol[j - 1] && before[j - 1] == col[j - 1];
      col[j] := Least(Least(1 + col[j - 1], 1 + prevCol[j]), prevCol[j - 1] + c);
      assert forall k | 0 <= k < j :: col[..][k] == before[k];
    }
  }

  function Least(a: int, b: int): int {
    if b < a then b else a
  }

  lemma FirstDistance(a: string, b: string)
    ensures Distance(a, b[..0]) == |a|
  {
  }

  /** One minus the edit distance over the longer length: between 0 and 1, unless both strings are empty. */
  method Similarity(s0: string, s1: string) returns (sim: Score)
    ensures s0 == [] && s1 == [] ==> sim == NotANumber
    ensures s0 != [] || s1 != [] ==>
      && sim == Score(1.0 - Distance(s0, s1) as real / (if |s0| < |s1| then |s1| else |s0|) as real)
      && 0.0 <= sim.value <= 1.0
  {
    hide Distance;
    var len0, len1 := |s0| + 1, |s1| + 1;
    var col := new int[len1](_ => 0);
    var prevCol := new int[len1](_ => 0);
    for i := 0 to len1
      invariant forall j | 0 <= j < i :: prevCol[j] == j
    {
      prevCol[i] := i;
    }
    FirstColumn(prevCol[..], s1);
    for i := 0 to len0
      invariant fresh(col) && fresh(prevCol) && col != prevCol && col.Length == prevCol.Length == len1
      invariant IsColumn(prevCol[..], s0[..if i == 0 then 0 else i - 1], s1, len1)
    {
      ComputeColumn(s0, s1, i, col, prevCol);
      col, prevCol := prevCol, col;
    }
    var dist, longer := prevCol[len1 - 1], if |s0| < |s1| then |s1| else |s0|;
    assert prevCol[..][len1 - 1] == dist && s0[..|s0|] == s0 && s1[..|s1|] == s1;
    if longer == 0 {
      return NotANumber;
    }
    AtMostLonger(s0, s1);
    Ratio(dist, longer);
    sim := Score(1.0 - dist as real / longer as real);
  }

  lemma Ratio(d: nat, n: nat)
    requires d <= n && n > 0
    ensures 0.0 <= d as real / n as real <= 1.0
  {
  }
}
